/** The access check as a function of the request, and what it grants. */
module AccessRights {
  import opened Memory
  import opened WideStrings
  import opened Paths
  import opened AccessMasks

  datatype Status =
    | Success
    | Reparse
    | AccessDenied
    | NameNotFound
    | PathNotFound
    | NameInvalid
    | NotADirectory
    | FileIsADirectory
    | CannotDelete
    | InvalidParameter
    | InsufficientResources
    | OtherSuccess(code: int)
    | OtherError(code: int)
  {
    predicate Ok()
    {
      Success? || Reparse? || OtherSuccess?
    }
  }

  type Failure = s: Status | !s.Ok() witness AccessDenied

  /** What the file system knows about a name; a descriptor of size 0 means that it keeps no security. */
  datatype Security = Security(status: Status, attributes: Mask, size: nat, descriptor: nat)

  /** What the system's access check says. */
  datatype Verdict = Allowed(granted: Mask) | Refused(granted: Mask) | Broken(status: Failure, granted: Mask)
  {
    function ToStatus(): Status
    {
      match this
      case Allowed(_) => Success
      case Refused(_) => AccessDenied
      case Broken(status, _) => status
    }
  }

  datatype FileSystem = FileSystem(
    getSecurityByName: Option<Wide -> Security>,
    accessCheck: (nat, Mask) -> Verdict,             // for the token of the request
    memory: bool,                                    // whether there is memory for a descriptor
    noReparseDirCheck: bool)

  datatype Create = Create(
    isCreate: bool,
    userMode: bool,
    hasTraversePrivilege: bool,
    hasTrailingBackslash: bool,
    createOptions: Mask)

  /** What a check leads to: `granted` is the index of the reparse point when the status is `Reparse`. */
  datatype Result = Result(status: Status, granted: Mask, descriptor: Option<nat>)

  // ---------- traverse access ----------

  datatype Traversal = Passed | Stopped(status: Status, attributes: Mask)

  /** The check of one directory on the way. */
  function TraverseOne(fs: FileSystem, prefix: Wide): (t: Traversal)
    requires fs.getSecurityByName.Some?
    ensures t.Stopped? ==> t.status.Reparse? || !t.status.Ok()
  {
    var sec := fs.getSecurityByName.value(prefix);
    if sec.status.Ok() && !sec.status.Reparse? && REPARSE_POINT in sec.attributes then
      Stopped(Reparse, BitsOf(SuffixIndexOf(prefix)))
    else if !sec.status.Ok() || sec.status.Reparse? then
      Stopped(if sec.status.NameNotFound? then PathNotFound else sec.status, sec.attributes)
    else if DIRECTORY !in sec.attributes then Stopped(PathNotFound, sec.attributes)
    else if sec.size > 0 && !fs.accessCheck(sec.descriptor, {FILE_TRAVERSE}).Allowed? then
      Stopped(fs.accessCheck(sec.descriptor, {FILE_TRAVERSE}).ToStatus(), sec.attributes)
    else Passed
  }

  function PrefixAt(name: Wide, j: nat): Wide
    requires j <= |name|
  {
    if j > 0 then name[..j] else [BACKSLASH]
  }

  /** The check of all directories on the way, from position `i` of the name on. */
  function Traverse(fs: FileSystem, name: Wide, i: nat): (t: Traversal)
    requires fs.getSecurityByName.Some? && i <= |name|
    ensures t.Stopped? ==> t.status.Reparse? || !t.status.Ok()
    decreases |name| - i
  {
    var j := ComponentEnd(name, i);
    if j == |name| || name[j] == COLON then Passed
    else
      var one := TraverseOne(fs, PrefixAt(name, j));
      if one.Stopped? then one else Traverse(fs, name, SkipSlashes(name, j + 1))
  }

  /** A directory on the way ends at `j`: at the first of some backslashes, before any colon. */
  predicate DirectoryEnds(name: Wide, j: int)
  {
    && 0 <= j < |name| && name[j] == BACKSLASH && (j == 0 || name[j - 1] != BACKSLASH)
    && forall k :: 0 <= k < j ==> name[k] != COLON
  }

  ghost predicate PassesAt(fs: FileSystem, name: Wide, j: int)
    requires fs.getSecurityByName.Some?
  {
    DirectoryEnds(name, j) ==> TraverseOne(fs, PrefixAt(name, j)).Passed?
  }

  /** The first directory from `i` on that stops the check. */
  ghost predicate FirstStop(fs: FileSystem, name: Wide, i: nat, j: int)
    requires fs.getSecurityByName.Some?
  {
    i <= j && DirectoryEnds(name, j) && !PassesAt(fs, name, j) && forall k :: i <= k < j ==> PassesAt(fs, name, k)
  }

  ghost predicate PassesBetween(fs: FileSystem, name: Wide, i: nat, n: nat)
    requires fs.getSecurityByName.Some?
  {
    forall j :: i <= j < n ==> PassesAt(fs, name, j)
  }

  lemma PassesBetweenBoth(fs: FileSystem, name: Wide, i: nat, m: nat, n: nat)
    requires fs.getSecurityByName.Some? && i <= m <= n
    ensures PassesBetween(fs, name, i, n) <==> PassesBetween(fs, name, i, m) && PassesBetween(fs, name, m, n)
  {
    hide PassesAt;
  }

  /** No directory ends before the next backslash or colon, nor anywhere behind a colon. */
  lemma PassesToSlash(fs: FileSystem, name: Wide, i: nat)
    requires fs.getSecurityByName.Some? && i <= |name|
    ensures var j := ComponentEnd(name, i);
            PassesBetween(fs, name, i, if j == |name| || name[j] == COLON then |name| else j)
  {
    hide TraverseOne, PrefixAt, ComponentEnd;
  }

  /** Only the first backslash of a run ends a directory. */
  lemma PassesOverRun(fs: FileSystem, name: Wide, j: nat)
    requires fs.getSecurityByName.Some? && j < |name| && name[j] == BACKSLASH
    ensures PassesBetween(fs, name, j, SkipSlashes(name, j + 1)) <==> PassesAt(fs, name, j)
  {
    hide TraverseOne, PrefixAt, SkipSlashes;
    var n := SkipSlashes(name, j + 1);
    forall k | j < k < n ensures PassesAt(fs, name, k) { assert name[k - 1] == BACKSLASH; }
  }

  lemma FirstStopIs(fs: FileSystem, name: Wide, i: nat, n: nat, j: nat)
    requires fs.getSecurityByName.Some? && i <= n && PassesBetween(fs, name, i, n) && FirstStop(fs, name, n, j)
    ensures FirstStop(fs, name, i, j)
  {
    hide PassesAt, DirectoryEnds;
  }

  ghost predicate StopsAtFirst(fs: FileSystem, name: Wide, i: nat, t: Traversal)
    requires fs.getSecurityByName.Some?
  {
    exists j :: FirstStop(fs, name, i, j) && t == TraverseOne(fs, PrefixAt(name, j))
  }

  lemma StopsEarlier(fs: FileSystem, name: Wide, i: nat, n: nat, t: Traversal)
    requires fs.getSecurityByName.Some? && i <= n && PassesBetween(fs, name, i, n) && StopsAtFirst(fs, name, n, t)
    ensures StopsAtFirst(fs, name, i, t)
  {
    hide PassesBetween, PassesAt, TraverseOne, PrefixAt;
    var j :| FirstStop(fs, name, n, j) && t == TraverseOne(fs, PrefixAt(name, j));
    FirstStopIs(fs, name, i, n, j);
  }

  lemma StopsHere(fs: FileSystem, name: Wide, j: nat)
    requires fs.getSecurityByName.Some? && DirectoryEnds(name, j) && TraverseOne(fs, PrefixAt(name, j)).Stopped?
    ensures !PassesAt(fs, name, j) && StopsAtFirst(fs, name, j, TraverseOne(fs, PrefixAt(name, j)))
  {
    hide TraverseOne, PrefixAt;
    assert FirstStop(fs, name, j, j);
  }

  lemma TraverseUnfolds(fs: FileSystem, name: Wide, i: nat)
    requires fs.getSecurityByName.Some? && i <= |name|
    ensures var j := ComponentEnd(name, i);
            Traverse(fs, name, i) ==
              if j == |name| || name[j] == COLON then Passed
              else if TraverseOne(fs, PrefixAt(name, j)).Stopped? then TraverseOne(fs, PrefixAt(name, j))
              else Traverse(fs, name, SkipSlashes(name, j + 1))
  {
    hide TraverseOne, PrefixAt, ComponentEnd, SkipSlashes;
  }

  /** The check of the way passes exactly if every directory on it does; else it stops as the first one does that does
      not. */
  lemma {:induction false} TraverseIsOfAll(fs: FileSystem, name: Wide, i: nat)
    requires fs.getSecurityByName.Some? && i <= |name| && (forall k :: 0 <= k < i ==> name[k] != COLON)
    requires i > 0 ==> name[i - 1] == BACKSLASH && (i < |name| ==> name[i] != BACKSLASH)
    ensures Traverse(fs, name, i).Passed? <==> PassesBetween(fs, name, i, |name|)
    ensures Traverse(fs, name, i).Stopped? ==> StopsAtFirst(fs, name, i, Traverse(fs, name, i))
    decreases |name| - i
  {
    hide Traverse, TraverseOne, PrefixAt, ComponentEnd, SkipSlashes, PassesAt, PassesBetween, StopsAtFirst;
    var j := ComponentEnd(name, i);
    TraverseUnfolds(fs, name, i);
    PassesToSlash(fs, name, i);
    if j < |name| && name[j] == BACKSLASH {
      assert DirectoryEnds(name, j);
      hide DirectoryEnds;
      var n := SkipSlashes(name, j + 1);
      PassesOverRun(fs, name, j);
      PassesBetweenBoth(fs, name, i, j, |name|);
      PassesBetweenBoth(fs, name, j, n, |name|);
      PassesBetweenBoth(fs, name, i, j, n);
      if TraverseOne(fs, PrefixAt(name, j)).Stopped? {
        StopsHere(fs, name, j);
        StopsEarlier(fs, name, i, j, TraverseOne(fs, PrefixAt(name, j)));
      } else {
        PassesHere(fs, name, j);
        TraverseIsOfAll(fs, name, n);
        if Traverse(fs, name, n).Stopped? { StopsEarlier(fs, name, i, n, Traverse(fs, name, n)); }
      }
    }
  }

  /** The way is open exactly if the file system calls every directory on it a directory, no reparse point, and one
      that may be traversed if it has a descriptor. */
  lemma OpenWay(fs: FileSystem, name: Wide)
    requires fs.getSecurityByName.Some?
    ensures Traverse(fs, name, 0).Passed? <==>
            forall j :: DirectoryEnds(name, j) ==>
              var dir := fs.getSecurityByName.value(if j == 0 then [0x5C] else name[..j]);
              && dir.status.Ok() && !dir.status.Reparse? && 10 !in dir.attributes && 4 in dir.attributes
              && (dir.size > 0 ==> fs.accessCheck(dir.descriptor, {5}).Allowed?)
  {
    TraverseIsOfAll(fs, name, 0);
    hide Traverse, SuffixIndexOf, BitsOf;
    forall j | DirectoryEnds(name, j)
      ensures PassesAt(fs, name, j) <==>
              var dir := fs.getSecurityByName.value(if j == 0 then [0x5C] else name[..j]);
              && dir.status.Ok() && !dir.status.Reparse? && 10 !in dir.attributes && 4 in dir.attributes
              && (dir.size > 0 ==> fs.accessCheck(dir.descriptor, {5}).Allowed?)
    {
    }
  }

  lemma StoppedBy(fs: FileSystem, prefix: Wide)
    requires fs.getSecurityByName.Some? && TraverseOne(fs, prefix).Stopped?
    ensures var dir := fs.getSecurityByName.value(prefix);
            var verdict := fs.accessCheck(dir.descriptor, {5});
            TraverseOne(fs, prefix) ==
              if dir.status.Reparse? then Stopped(Reparse, dir.attributes)
              else if dir.status.NameNotFound? then Stopped(PathNotFound, dir.attributes)
              else if !dir.status.Ok() then Stopped(dir.status, dir.attributes)
              else if 10 in dir.attributes then Stopped(Reparse, BitsOf(SuffixIndexOf(prefix)))
              else if 4 !in dir.attributes then Stopped(PathNotFound, dir.attributes)
              else if verdict.Refused? then Stopped(AccessDenied, dir.attributes)
              else Stopped(verdict.status, dir.attributes)
  {
    hide SuffixIndexOf, BitsOf;
  }

  /** Else the first directory that fails one of this decides how the check of the way ends. */
  lemma ClosedWay(fs: FileSystem, name: Wide) returns (j: nat)
    requires fs.getSecurityByName.Some? && Traverse(fs, name, 0).Stopped?
    ensures j < |name| && FirstStop(fs, name, 0, j)
    ensures var prefix := if j == 0 then [0x5C] else name[..j];
            var dir := fs.getSecurityByName.value(prefix);
            var verdict := fs.accessCheck(dir.descriptor, {5});
            Traverse(fs, name, 0) ==
              if dir.status.Reparse? then Stopped(Reparse, dir.attributes)
              else if dir.status.NameNotFound? then Stopped(PathNotFound, dir.attributes)
              else if !dir.status.Ok() then Stopped(dir.status, dir.attributes)
              else if 10 in dir.attributes then Stopped(Reparse, BitsOf(SuffixIndexOf(prefix)))
              else if 4 !in dir.attributes then Stopped(PathNotFound, dir.attributes)
              else if verdict.Refused? then Stopped(AccessDenied, dir.attributes)
              else Stopped(verdict.status, dir.attributes)
  {
    TraverseIsOfAll(fs, name, 0);
    hide Traverse, SuffixIndexOf, BitsOf, FirstStop, TraverseOne, PassesBetween;
    var k :| FirstStop(fs, name, 0, k) && Traverse(fs, name, 0) == TraverseOne(fs, PrefixAt(name, k));
    FirstStopIsIn(fs, name, k);
    j := k;
    StoppedBy(fs, PrefixAt(name, j));
  }

  lemma FirstStopIsIn(fs: FileSystem, name: Wide, k: int)
    requires fs.getSecurityByName.Some? && FirstStop(fs, name, 0, k)
    ensures 0 <= k < |name|
  {
  }

  lemma PassesHere(fs: FileSystem, name: Wide, j: nat)
    requires fs.getSecurityByName.Some? && j <= |name| && TraverseOne(fs, PrefixAt(name, j)).Passed?
    ensures PassesAt(fs, name, j)
  {
    hide TraverseOne, PrefixAt;
  }

  // ---------- the check ----------

  datatype Target = Itself | Parent | MainFile

  function TargetOf(checkParentOrMain: bool, stream: nat): Target
  {
    if !checkParentOrMain then Itself else if stream == 0 then Parent else MainFile
  }

  /** The name that is checked. */
  function NameOf(path: Wide, target: Target, stream: nat): (name: Wide)
    requires target.MainFile? ==> stream <= |path|
    ensures NUL !in path ==> NUL !in name
  {
    match target
    case Itself => path
    case Parent => ParentOf(path)
    case MainFile => path[..stream]
  }

  /** What the request buffer holds while that name is checked. */
  function Cut(path: Wide, target: Target, stream: nat): (cut: Wide)
    requires target.MainFile? ==> stream <= |path|
    ensures |cut| <= |path| && cut == path[..|cut|]
  {
    match target
    case Itself => path
    case Parent => if BACKSLASH in path then path[..CutOf(path, SuffixOf(path, |path|))] else path
    case MainFile => path[..stream]
  }

  /** The access check of `path`, which may fall back on a check of the parent. */
  function Check(fs: FileSystem, r: Create, path: Wide, stream: nat, checkParentOrMain: bool, allowTraverse: bool,
                 desired: Mask, want: bool): Result
    requires stream <= |path|
    decreases if ParentCanHelp(desired) then 1 else 0
  {
    var target := TargetOf(checkParentOrMain, stream);
    if !r.isCreate then Result(InvalidParameter, {}, None)
    else if target.Parent? && path == [BACKSLASH] then Result(InvalidParameter, {}, None)
    else if fs.getSecurityByName.None? || (!r.userMode && !want) then Result(Success, GrantAll(desired), None)
    else Finish(target, if !fs.memory then Result(InsufficientResources, {}, None)
                        else CheckTraverse(fs, r, path, stream, target, allowTraverse, desired, want))
  }

  /** A parent that is not found makes for a path that is not found. */
  function Finish(target: Target, result: Result): Result
  {
    if target.Parent? && result.status.NameNotFound? then result.(status := PathNotFound) else result
  }

  function CheckTraverse(fs: FileSystem, r: Create, path: Wide, stream: nat, target: Target, allowTraverse: bool,
                         desired: Mask, want: bool): Result
    requires stream <= |path| && fs.getSecurityByName.Some?
    decreases if ParentCanHelp(desired) then 1 else 0, 2
  {
    var name := NameOf(path, target, stream);
    if r.userMode && allowTraverse && !r.hasTraversePrivilege && name != [BACKSLASH] &&
      Traverse(fs, name, 0).Stopped? then
      Result(Traverse(fs, name, 0).status,
             if Traverse(fs, name, 0).status.Reparse? then Traverse(fs, name, 0).attributes else {}, None)
    else CheckName(fs, r, path, stream, target, desired, want)
  }

  function CheckName(fs: FileSystem, r: Create, path: Wide, stream: nat, target: Target, desired: Mask,
                     want: bool): Result
    requires stream <= |path| && fs.getSecurityByName.Some?
    decreases if ParentCanHelp(desired) then 1 else 0, 1
  {
    var sec := fs.getSecurityByName.value(NameOf(path, target, stream));
    if !sec.status.Ok() then Result(sec.status, {}, None)
    else if sec.status.Reparse? then Result(Reparse, sec.attributes, None)
    else if target.Itself? && r.hasTrailingBackslash && DIRECTORY !in sec.attributes then Result(NameInvalid, {}, None)
    else
      var a := CheckAccess(fs, r, path, stream, target, desired, sec);
      if !a.0.Ok() then Result(a.0, a.1, None)
      else CheckAttributes(fs, r, NameOf(path, target, stream), target, desired, want, sec, a.1)
  }

  /** The system's access check, with the parent's help if it is refused. */
  function CheckAccess(fs: FileSystem, r: Create, path: Wide, stream: nat, target: Target, desired: Mask,
                       sec: Security): (a: (Status, Mask))
    requires stream <= |path|
    ensures a.0.Ok() ==> a.0.Success?
    decreases if ParentCanHelp(desired) then 1 else 0, 0
  {
    if !(r.userMode && sec.size > 0) || desired == {} then (Success, {})
    else
      var first := fs.accessCheck(sec.descriptor, desired);
      if first.Allowed? then (Success, first.granted)
      else if !first.ToStatus().AccessDenied? || !ParentCanHelp(desired) then (first.ToStatus(), first.granted)
      else
        ParentRightsDoNotRecur(desired);
        var parent := Check(fs, r, Cut(path, target, stream), 0, true, false, ParentDesired(desired), false);
        if !parent.status.Ok() then (AccessDenied, first.granted)
        else
          var rest := desired - FromParent(parent.granted);
          if rest == {} then (Success, first.granted + FromParent(parent.granted))
          else
            var second := fs.accessCheck(sec.descriptor, rest);
            if second.Allowed? then (Success, second.granted + FromParent(parent.granted))
            else (AccessDenied, second.granted)
  }

  /** What the attributes of the name still forbid. */
  function CheckAttributes(fs: FileSystem, r: Create, name: Wide, target: Target, desired: Mask, want: bool,
                           sec: Security, granted: Mask): Result
  {
    var isReparse := REPARSE_POINT in sec.attributes;
    var isDirectory := DIRECTORY in sec.attributes;
    var isReadOnly := READONLY in sec.attributes;
    var allowed :=
      if !r.userMode then GrantAll(desired)
      else
        var g := if sec.size == 0 then GrantAll(desired) else granted;
        if isReadOnly && !isDirectory && MAXIMUM_ALLOWED in desired then g - WRITE_RIGHTS else g;
    if isReparse && (target.Parent? || OPEN_REPARSE_POINT !in r.createOptions) then
      Result(Reparse, BitsOf(SuffixIndexOf(name)), None)
    else if target.Parent? && !isDirectory then Result(NotADirectory, granted, None)
    else if target.Itself? && !(isReparse && fs.noReparseDirCheck) && DIRECTORY_FILE in r.createOptions &&
      !isDirectory then
      Result(NotADirectory, granted, None)
    else if target.Itself? && !(isReparse && fs.noReparseDirCheck) && NON_DIRECTORY_FILE in r.createOptions &&
      isDirectory then
      Result(FileIsADirectory, granted, None)
    else if r.userMode && isReadOnly && !isDirectory &&
            desired * WRITE_RIGHTS != {} then
      Result(AccessDenied, granted, None)
    else if r.userMode && isReadOnly && DELETE_ON_CLOSE in r.createOptions then Result(CannotDelete, granted, None)
    else Result(Success, allowed, if want && sec.size > 0 then Some(sec.descriptor) else None)
  }

  /** What the system's access check and the parent come to, in the numbers of the rights: what is refused is asked
      for again without what the parent makes up for, if the parent is asked and its check succeeds. */
  lemma AccessIs(fs: FileSystem, r: Create, path: Wide, stream: nat, target: Target, desired: Mask, sec: Security)
    requires stream <= |path| && r.userMode && sec.size > 0 && desired != {}
    ensures var a := CheckAccess(fs, r, path, stream, target, desired, sec);
            var first := fs.accessCheck(sec.descriptor, desired);
            if first.Allowed? then a == (Success, first.granted)
            else if first.Broken? && !first.status.AccessDenied? then a == (first.status, first.granted)
            else if 25 !in desired && 16 !in desired && 7 !in desired then a == (AccessDenied, first.granted)
            else
              var asked: Mask := if 25 in desired then {6, 0}
                                 else (if 16 in desired then {6} else {}) + (if 7 in desired then {0} else {});
              var parent := Check(fs, r, Cut(path, target, stream), 0, true, false, asked, false);
              var inherited: Mask := (if 6 in parent.granted then {16} else {}) +
                                     (if 0 in parent.granted then {7} else {});
              var second := fs.accessCheck(sec.descriptor, desired - inherited);
              if !parent.status.Ok() then a == (AccessDenied, first.granted)
              else if desired <= inherited then a == (Success, first.granted + inherited)
              else if second.Allowed? then a == (Success, second.granted + inherited)
              else a == (AccessDenied, second.granted)
  {
    hide Check, Cut;
    var asked: Mask := if 25 in desired then {6, 0}
                       else (if 16 in desired then {6} else {}) + (if 7 in desired then {0} else {});
    assert ParentDesired(desired) == asked;
    var parent := Check(fs, r, Cut(path, target, stream), 0, true, false, asked, false);
    var inherited: Mask := (if 6 in parent.granted then {16} else {}) + (if 0 in parent.granted then {7} else {});
    assert FromParent(parent.granted) == inherited;
    assert desired <= inherited <==> desired - inherited == {};
  }

  /** Without a descriptor, or in kernel mode, or if nothing is desired, there is nothing to ask. */
  lemma AccessIsFree(fs: FileSystem, r: Create, path: Wide, stream: nat, target: Target, desired: Mask, sec: Security)
    requires stream <= |path| && (!r.userMode || sec.size == 0 || desired == {})
    ensures CheckAccess(fs, r, path, stream, target, desired, sec) == (Success, {})
  {
  }

  /** What the attributes decide, in the numbers of the options and attributes. */
  lemma AttributesDecide(fs: FileSystem, r: Create, name: Wide, target: Target, desired: Mask, want: bool,
                         sec: Security, granted: Mask)
    ensures var isReparse, isDirectory, isReadOnly := 10 in sec.attributes, 4 in sec.attributes, 0 in sec.attributes;
            CheckAttributes(fs, r, name, target, desired, want, sec, granted) ==
            if isReparse && (target.Parent? || 21 !in r.createOptions) then
              Result(Reparse, BitsOf(SuffixIndexOf(name)), None)
            else if target.Parent? && !isDirectory then Result(NotADirectory, granted, None)
            else if target.Itself? && !(isReparse && fs.noReparseDirCheck) && 0 in r.createOptions && !isDirectory then
              Result(NotADirectory, granted, None)
            else if target.Itself? && !(isReparse && fs.noReparseDirCheck) && 6 in r.createOptions && isDirectory then
              Result(FileIsADirectory, granted, None)
            else if r.userMode && isReadOnly && !isDirectory && desired * {1, 2, 6} != {} then
              Result(AccessDenied, granted, None)
            else if r.userMode && isReadOnly && 12 in r.createOptions then Result(CannotDelete, granted, None)
            else
              var all := if 25 in desired then FILE_ALL_ACCESS else desired;
              var g := if r.userMode && sec.size > 0 then granted else all;
              Result(Success, if r.userMode && isReadOnly && !isDirectory && 25 in desired then g - {1, 2, 6} else g,
                     if want && sec.size > 0 then Some(sec.descriptor) else None)
  {
    hide BitsOf, SuffixIndexOf;
  }

  lemma AttributesAreFound(fs: FileSystem, r: Create, name: Wide, target: Target, desired: Mask, want: bool,
                           sec: Security, granted: Mask)
    ensures !CheckAttributes(fs, r, name, target, desired, want, sec, granted).status.NameNotFound?
  {
  }

  /** How a check ends, as the first of these decides, up to the attributes.  What the parent's name is not found for
      is a path that is not found. */
  lemma CheckEndsAs(fs: FileSystem, r: Create, path: Wide, stream: nat, checkParentOrMain: bool, allowTraverse: bool,
                    desired: Mask, want: bool)
    requires stream <= |path| && fs.getSecurityByName.Some? && (r.userMode || want)
    ensures var target := if !checkParentOrMain then Itself else if stream == 0 then Target.Parent else MainFile;
            var name := NameOf(path, target, stream);
            var sec := fs.getSecurityByName.value(name);
            var way := Traverse(fs, name, 0);
            var a := CheckAccess(fs, r, path, stream, target, desired, sec);
            var result := Check(fs, r, path, stream, checkParentOrMain, allowTraverse, desired, want);
            if !r.isCreate || (target.Parent? && path == [0x5C]) then result == Result(InvalidParameter, {}, None)
            else if !fs.memory then result == Result(InsufficientResources, {}, None)
            else if r.userMode && allowTraverse && !r.hasTraversePrivilege && name != [0x5C] && way.Stopped? then
              EndsWith(target, way.status, if way.status.Reparse? then way.attributes else {}, result)
            else if !sec.status.Ok() then EndsWith(target, sec.status, {}, result)
            else if sec.status.Reparse? then result == Result(Reparse, sec.attributes, None)
            else if target.Itself? && r.hasTrailingBackslash && 4 !in sec.attributes then
              result == Result(NameInvalid, {}, None)
            else if !a.0.Ok() then EndsWith(target, a.0, a.1, result)
            else result == CheckAttributes(fs, r, name, target, desired, want, sec, a.1)
  {
    hide Traverse, CheckAccess, NameOf, CheckAttributes;
    var target := TargetOf(checkParentOrMain, stream);
    var whole := CheckTraverse(fs, r, path, stream, target, allowTraverse, desired, want);
    var named := CheckName(fs, r, path, stream, target, desired, want);
    var name := NameOf(path, target, stream);
    var sec := fs.getSecurityByName.value(name);
    AttributesAreFound(fs, r, name, target, desired, want, sec,
                       CheckAccess(fs, r, path, stream, target, desired, sec).1);
  }

  /** Without a file system that keeps security, or in kernel mode when no descriptor is wanted, nothing is checked. */
  lemma NothingToCheck(fs: FileSystem, r: Create, path: Wide, stream: nat, checkParentOrMain: bool,
                       allowTraverse: bool, desired: Mask, want: bool)
    requires stream <= |path| && (fs.getSecurityByName.None? || (!r.userMode && !want))
    ensures var result := Check(fs, r, path, stream, checkParentOrMain, allowTraverse, desired, want);
            if !r.isCreate || (checkParentOrMain && stream == 0 && path == [0x5C]) then
              result == Result(InvalidParameter, {}, None)
            else result == Result(Success, if 25 in desired then FILE_ALL_ACCESS else desired, None)
  {
  }

  ghost predicate EndsWith(target: Target, status: Status, granted: Mask, result: Result)
  {
    && result.granted == granted && result.descriptor.None?
    && (if target.Parent? && status.NameNotFound? then result.status == PathNotFound else result.status == status)
  }

  /** A check succeeds exactly if the file is there and of the kind that is asked for, may be written or deleted if
      that is asked, can be traversed to, and the access check grants what is desired, with the parent's help or
      without. */
  lemma CheckedIsAsAsked(fs: FileSystem, r: Create, path: Wide, stream: nat, checkParentOrMain: bool,
                         allowTraverse: bool, desired: Mask, want: bool)
    requires stream <= |path| && fs.getSecurityByName.Some? && (r.userMode || want)
    ensures var target := if !checkParentOrMain then Itself else if stream == 0 then Target.Parent else MainFile;
            var name := NameOf(path, target, stream);
            var sec := fs.getSecurityByName.value(name);
            var isReparse, isDirectory, isReadOnly := 10 in sec.attributes, 4 in sec.attributes, 0 in sec.attributes;
            Check(fs, r, path, stream, checkParentOrMain, allowTraverse, desired, want).status.Success? <==>
            && r.isCreate && !(target.Parent? && path == [0x5C]) && fs.memory
            && sec.status.Ok() && !sec.status.Reparse?
            && (isReparse ==> !target.Parent? && 21 in r.createOptions)
            && (target.Parent? ==> isDirectory)
            && (target.Itself? && r.hasTrailingBackslash ==> isDirectory)
            && (target.Itself? && !(isReparse && fs.noReparseDirCheck) ==>
                  (0 in r.createOptions ==> isDirectory) && (6 in r.createOptions ==> !isDirectory))
            && (r.userMode && isReadOnly ==> 12 !in r.createOptions && (isDirectory || desired * {1, 2, 6} == {}))
            && (r.userMode && sec.size > 0 && desired != {} ==>
                  CheckAccess(fs, r, path, stream, target, desired, sec).0.Success?)
            && (r.userMode && allowTraverse && !r.hasTraversePrivilege && name != [0x5C] ==>
                  forall j :: DirectoryEnds(name, j) ==>
                    var dir := fs.getSecurityByName.value(if j == 0 then [0x5C] else name[..j]);
                    && dir.status.Ok() && !dir.status.Reparse? && 10 !in dir.attributes && 4 in dir.attributes
                    && (dir.size > 0 ==> fs.accessCheck(dir.descriptor, {5}).Allowed?))
  {
    var target := TargetOf(checkParentOrMain, stream);
    var name := NameOf(path, target, stream);
    var sec := fs.getSecurityByName.value(name);
    OpenWay(fs, name);
    CheckEndsAs(fs, r, path, stream, checkParentOrMain, allowTraverse, desired, want);
    var a := CheckAccess(fs, r, path, stream, target, desired, sec);
    AttributesDecide(fs, r, name, target, desired, want, sec, a.1);
    hide Check, Traverse, CheckAccess, CheckAttributes, NameOf, DirectoryEnds;
    if !(r.userMode && sec.size > 0 && desired != {}) {
      AccessIsFree(fs, r, path, stream, target, desired, sec);
    }
  }

  // ---------- what is granted ----------

  /** An access check that grants what is asked or nothing. */
  ghost predicate Exact(fs: FileSystem)
  {
    forall d, m :: fs.accessCheck(d, m).granted == if fs.accessCheck(d, m).Allowed? then m else {}
  }

  /** Whether a check of `desired` asks the parent for help: the file's own access check says no, and the parent can
      help. */
  predicate AsksParent(fs: FileSystem, r: Create, path: Wide, stream: nat, target: Target, desired: Mask)
    requires stream <= |path| && fs.getSecurityByName.Some?
  {
    var sec := fs.getSecurityByName.value(NameOf(path, target, stream));
    r.userMode && sec.size > 0 && desired != {} && ParentCanHelp(desired) &&
    !fs.accessCheck(sec.descriptor, desired).Allowed? &&
      fs.accessCheck(sec.descriptor, desired).ToStatus().AccessDenied?
  }

  /** The check of the parent that a check of `desired` falls back on, if it does. */
  function Fallback(fs: FileSystem, r: Create, path: Wide, stream: nat, target: Target, desired: Mask): Option<Result>
    requires stream <= |path| && fs.getSecurityByName.Some?
  {
    if AsksParent(fs, r, path, stream, target, desired)
    then Some(Check(fs, r, Cut(path, target, stream), 0, true, false, ParentDesired(desired), false))
    else None
  }

  /** The rights that come from the parent. */
  function Inherited(fs: FileSystem, r: Create, path: Wide, stream: nat, target: Target, desired: Mask): Mask
    requires stream <= |path| && fs.getSecurityByName.Some?
  {
    var f := Fallback(fs, r, path, stream, target, desired);
    if f.Some? then FromParent(f.value.granted) else {}
  }

  lemma AccessGranted(fs: FileSystem, r: Create, path: Wide, stream: nat, target: Target, desired: Mask)
    requires Exact(fs) && r.userMode && stream <= |path| && fs.getSecurityByName.Some?
    ensures var sec := fs.getSecurityByName.value(NameOf(path, target, stream));
            var a := CheckAccess(fs, r, path, stream, target, desired, sec);
            sec.size > 0 && a.0.Ok() ==> a.1 == desired + Inherited(fs, r, path, stream, target, desired)
    ensures fs.getSecurityByName.value(NameOf(path, target, stream)).size == 0 ==>
            Inherited(fs, r, path, stream, target, desired) == {}
  {
    hide Check, FromParent, ParentCanHelp, ParentDesired, NameOf, Cut;
    var sec := fs.getSecurityByName.value(NameOf(path, target, stream));
    var f := Fallback(fs, r, path, stream, target, desired);
    if f.Some? {
      var inherited := FromParent(f.value.granted);
      assert (desired - inherited) + inherited == desired + inherited;
    }
  }

  /** In user mode, and without MAXIMUM_ALLOWED, a check that succeeds grants what is desired and what comes from the
      parent. */
  lemma CheckGrants(fs: FileSystem, r: Create, path: Wide, stream: nat, checkParentOrMain: bool, allowTraverse: bool,
                    desired: Mask, want: bool)
    requires Exact(fs) && r.userMode && stream <= |path| && fs.getSecurityByName.Some? && MAXIMUM_ALLOWED !in desired
    requires Check(fs, r, path, stream, checkParentOrMain, allowTraverse, desired, want).status.Success?
    ensures Check(fs, r, path, stream, checkParentOrMain, allowTraverse, desired, want).granted ==
            desired + Inherited(fs, r, path, stream, TargetOf(checkParentOrMain, stream), desired)
  {
    hide Inherited, Exact, Traverse, FromParent, ParentCanHelp, NameOf, Cut;
    AccessGranted(fs, r, path, stream, TargetOf(checkParentOrMain, stream), desired);
    var target := TargetOf(checkParentOrMain, stream);
    var traversed := CheckTraverse(fs, r, path, stream, target, allowTraverse, desired, want);
    var checked := CheckName(fs, r, path, stream, target, desired, want);
    var sec := fs.getSecurityByName.value(NameOf(path, target, stream));
    var access := CheckAccess(fs, r, path, stream, target, desired, sec);
  }

  /** No check ends with a success code of the file system's own: if it succeeds it is with success or a reparse
      point. */
  lemma CheckIsPlain(fs: FileSystem, r: Create, path: Wide, stream: nat, checkParentOrMain: bool,
                     allowTraverse: bool, desired: Mask, want: bool)
    requires stream <= |path|
    ensures !Check(fs, r, path, stream, checkParentOrMain, allowTraverse, desired, want).status.OtherSuccess?
  {
    if fs.getSecurityByName.Some? {
      var target := TargetOf(checkParentOrMain, stream);
      var traversed := CheckTraverse(fs, r, path, stream, target, allowTraverse, desired, want);
      var checked := CheckName(fs, r, path, stream, target, desired, want);
      var sec := fs.getSecurityByName.value(NameOf(path, target, stream));
      var access := CheckAccess(fs, r, path, stream, target, desired, sec);
    }
  }

  /** A parent that is no reparse point gives no right that was not asked for. */
  lemma ParentGivesWhatIsAsked(fs: FileSystem, r: Create, path: Wide, stream: nat, target: Target, desired: Mask)
    requires Exact(fs) && r.userMode && stream <= |path| && fs.getSecurityByName.Some? && MAXIMUM_ALLOWED !in desired
    requires var f := Fallback(fs, r, path, stream, target, desired); f.Some? ==> f.value.status.Success?
    ensures Inherited(fs, r, path, stream, target, desired) <= desired
  {
    var f := Fallback(fs, r, path, stream, target, desired);
    if f.Some? {
      var cut, asked := Cut(path, target, stream), ParentDesired(desired);
      AskedOfParent(desired);
      CheckGrants(fs, r, cut, 0, true, false, asked, false);
      assert Fallback(fs, r, cut, 0, Target.Parent, asked).None? by { ParentRightsDoNotRecur(desired); }
      assert f.value.granted == asked;
    }
  }

  lemma FallbackSucceeded(fs: FileSystem, r: Create, path: Wide, stream: nat, checkParentOrMain: bool,
                          allowTraverse: bool, desired: Mask, want: bool)
    requires stream <= |path| && fs.getSecurityByName.Some? && r.userMode
    requires Check(fs, r, path, stream, checkParentOrMain, allowTraverse, desired, want).status.Success?
    requires Fallback(fs, r, path, stream, TargetOf(checkParentOrMain, stream), desired).Some?
    ensures Fallback(fs, r, path, stream, TargetOf(checkParentOrMain, stream), desired).value.status.Ok()
  {
    var target := TargetOf(checkParentOrMain, stream);
    var traversed := CheckTraverse(fs, r, path, stream, target, allowTraverse, desired, want);
    var checked := CheckName(fs, r, path, stream, target, desired, want);
    var sec := fs.getSecurityByName.value(NameOf(path, target, stream));
    var access := CheckAccess(fs, r, path, stream, target, desired, sec);
  }

  // ---------- a parent that is a reparse point ----------

  /** The index that a check of `parent` comes back with when the file system says that it is a reparse point, taken for
      rights: either the file system gives the index itself, or it is that of the parent's last component. */
  function IndexRights(fs: FileSystem, parent: Wide, asked: Mask): Mask
    requires fs.getSecurityByName.Some?
  {
    var sec := fs.getSecurityByName.value(parent);
    if sec.status.Reparse? then sec.attributes
    else if sec.status.Ok() && REPARSE_POINT in sec.attributes &&
      (sec.size == 0 || fs.accessCheck(sec.descriptor, asked).Allowed?)
    then BitsOf(SuffixIndexOf(parent))
    else {}
  }

  /** The rights that such an index brings to a check that asks the parent. */
  function LinkRights(fs: FileSystem, r: Create, path: Wide, stream: nat, target: Target, desired: Mask): Mask
    requires stream <= |path| && fs.getSecurityByName.Some?
  {
    if AsksParent(fs, r, path, stream, target, desired)
    then FromParent(IndexRights(fs, ParentOf(Cut(path, target, stream)), ParentDesired(desired)))
    else {}
  }

  /** An odd index brings the right to read attributes, one with the bit of 64 the right to delete. */
  lemma IndexAsRights(index: nat)
    ensures FILE_READ_ATTRIBUTES in FromParent(BitsOf(index)) <==> index % 2 == 1
    ensures DELETE in FromParent(BitsOf(index)) <==> index / 64 % 2 == 1
  {
    assert Power(0) == 1 && Power(2) == 4 && Power(4) == 16;
    assert Power(6) == 64;
  }

  /** What the check of a parent that succeeds comes back with. */
  lemma ParentResult(fs: FileSystem, r: Create, cut: Wide, asked: Mask)
    requires Exact(fs) && r.userMode && fs.getSecurityByName.Some? && !ParentCanHelp(asked) && asked != {}
    requires Check(fs, r, cut, 0, true, false, asked, false).status.Ok()
    ensures var result := Check(fs, r, cut, 0, true, false, asked, false);
            if result.status.Reparse? then result.granted == IndexRights(fs, ParentOf(cut), asked)
            else result.granted == asked && IndexRights(fs, ParentOf(cut), asked) == {}
  {
    hide BitsOf, SuffixIndexOf, ParentOf;
    var name := NameOf(cut, Target.Parent, 0);
    var sec := fs.getSecurityByName.value(name);
    var traversed := CheckTraverse(fs, r, cut, 0, Target.Parent, false, asked, false);
    var checked := CheckName(fs, r, cut, 0, Target.Parent, asked, false);
    var access := CheckAccess(fs, r, cut, 0, Target.Parent, asked, sec);
  }

  /** The parent's rights are worth no more than what is desired, other than by an index. */
  lemma InheritedIs(fs: FileSystem, r: Create, path: Wide, stream: nat, target: Target, desired: Mask)
    requires Exact(fs) && r.userMode && stream <= |path| && fs.getSecurityByName.Some? && MAXIMUM_ALLOWED !in desired
    requires var f := Fallback(fs, r, path, stream, target, desired); f.Some? ==> f.value.status.Ok()
    ensures desired + Inherited(fs, r, path, stream, target, desired) ==
            desired + LinkRights(fs, r, path, stream, target, desired)
  {
    hide Check, IndexRights, ParentOf, NameOf, Cut, Exact;
    if AsksParent(fs, r, path, stream, target, desired) {
      ParentRightsDoNotRecur(desired);
      AskedOfParent(desired);
      ParentResult(fs, r, Cut(path, target, stream), ParentDesired(desired));
    }
  }

  /** The exact condition: a check that succeeds grants what is desired and what an index brings, and so just what is
      desired if and only if no index brings another right. */
  lemma CheckIsExactUnless(fs: FileSystem, r: Create, path: Wide, stream: nat, checkParentOrMain: bool,
                           allowTraverse: bool, desired: Mask, want: bool)
    requires Exact(fs) && r.userMode && stream <= |path| && fs.getSecurityByName.Some? && MAXIMUM_ALLOWED !in desired
    requires Check(fs, r, path, stream, checkParentOrMain, allowTraverse, desired, want).status.Success?
    ensures var link := LinkRights(fs, r, path, stream, TargetOf(checkParentOrMain, stream), desired);
            var granted := Check(fs, r, path, stream, checkParentOrMain, allowTraverse, desired, want).granted;
            && granted == desired + link
            && (granted == desired <==> (DELETE in link ==> DELETE in desired) &&
                                        (FILE_READ_ATTRIBUTES in link ==> FILE_READ_ATTRIBUTES in desired))
  {
    hide Check, Fallback, Exact, Inherited, IndexRights, ParentOf, ParentDesired, Cut, AsksParent;
    var target := TargetOf(checkParentOrMain, stream);
    CheckGrants(fs, r, path, stream, checkParentOrMain, allowTraverse, desired, want);
    if Fallback(fs, r, path, stream, target, desired).Some? {
      FallbackSucceeded(fs, r, path, stream, checkParentOrMain, allowTraverse, desired, want);
    }
    InheritedIs(fs, r, path, stream, target, desired);
  }

  // ---------- opening and overwriting ----------

  /** What an open that succeeds has been granted is what is desired, the right to delete if the file is to be deleted,
      and what an index brings.  What it grants in the end is the desired rights and those of the request, and nothing
      it asked for only to delete, if and only if no index brings the right to read attributes that nobody asked for. */
  lemma OpenGrantsExactly(fs: FileSystem, r: Create, path: Wide, stream: nat, allowTraverse: bool, desired: Mask,
                          requestGrant: Mask, want: bool)
    requires Exact(fs) && r.userMode && stream <= |path| && fs.getSecurityByName.Some? && MAXIMUM_ALLOWED !in desired
    ensures var asks := OpenAsks(r.createOptions, desired);
            var result := Check(fs, r, path, stream, false, allowTraverse, asks, want);
            var link := LinkRights(fs, r, path, stream, Itself, asks);
            result.status.Ok() && !result.status.Reparse? ==>
              && result.granted == desired + (if 12 in r.createOptions then {16} else {}) + link
              && (OpenGrant(desired, requestGrant, result.granted) == desired + requestGrant <==>
                  (7 in link ==> 7 in desired + requestGrant))
  {
    AskedFor(r.createOptions, desired);
    hide Check, OpenAsks, OpenGrant, Exact, IndexRights, AsksParent, ParentDesired, Cut, ParentOf;
    var asks := OpenAsks(r.createOptions, desired);
    OpenIsTakenBack(r.createOptions, desired, requestGrant, LinkRights(fs, r, path, stream, Itself, asks));
    CheckIsPlain(fs, r, path, stream, false, allowTraverse, asks, want);
    if Check(fs, r, path, stream, false, allowTraverse, asks, want).status.Success? {
      CheckIsExactUnless(fs, r, path, stream, false, allowTraverse, asks, want);
    }
  }

  /** An overwrite has been granted the right to write data as well, and a supersede, which has 0 in the top byte of its
      options, the right to delete. */
  lemma OverwriteGrantsExactly(fs: FileSystem, r: Create, path: Wide, stream: nat, allowTraverse: bool,
                               desired: Mask, requestGrant: Mask)
    requires Exact(fs) && r.userMode && stream <= |path| && fs.getSecurityByName.Some? && MAXIMUM_ALLOWED !in desired
    ensures var asks := OverwriteAsks(r.createOptions, desired);
            var result := Check(fs, r, path, stream, false, allowTraverse, asks, false);
            var link := LinkRights(fs, r, path, stream, Itself, asks);
            result.status.Ok() && !result.status.Reparse? ==>
              && result.granted == desired +
                                   (if forall k :: 24 <= k < 32 ==> k !in r.createOptions then {16} else {1}) +
                                   (if 12 in r.createOptions then {16} else {}) + link
              && (OverwriteGrant(desired, requestGrant, result.granted) == desired + requestGrant <==>
                  (7 in link ==> 7 in desired + requestGrant))
  {
    AskedFor(r.createOptions, desired);
    hide Check, OverwriteAsks, OverwriteGrant, Exact, IndexRights, AsksParent, ParentDesired, Cut, ParentOf;
    var asks := OverwriteAsks(r.createOptions, desired);
    OverwriteIsTakenBack(r.createOptions, desired, requestGrant, LinkRights(fs, r, path, stream, Itself, asks));
    CheckIsPlain(fs, r, path, stream, false, allowTraverse, asks, false);
    if Check(fs, r, path, stream, false, allowTraverse, asks, false).status.Success? {
      CheckIsExactUnless(fs, r, path, stream, false, allowTraverse, asks, false);
    }
  }

  /** A new stream has been granted the right to write data to the main file. */
  lemma StreamGrantsExactly(fs: FileSystem, r: Create, path: Wide, stream: nat, allowTraverse: bool, desired: Mask,
                            requestGrant: Mask)
    requires Exact(fs) && r.userMode && 0 < stream <= |path| && fs.getSecurityByName.Some? &&
             MAXIMUM_ALLOWED !in desired
    ensures var asks := StreamAsks(r.createOptions, desired);
            var result := Check(fs, r, path, stream, true, allowTraverse, asks, false);
            var link := LinkRights(fs, r, path, stream, MainFile, asks);
            result.status.Ok() && !result.status.Reparse? ==>
              && result.granted == desired + {1} + (if 12 in r.createOptions then {16} else {}) + link
              && (OverwriteGrant(desired, requestGrant, result.granted) == desired + requestGrant <==>
                  (7 in link ==> 7 in desired + requestGrant))
  {
    AskedFor(r.createOptions, desired);
    hide Check, StreamAsks, OverwriteGrant, Exact, IndexRights, AsksParent, ParentDesired, Cut, ParentOf;
    var asks := StreamAsks(r.createOptions, desired);
    StreamIsTakenBack(r.createOptions, desired, requestGrant, LinkRights(fs, r, path, stream, MainFile, asks));
    CheckIsPlain(fs, r, path, stream, true, allowTraverse, asks, false);
    if Check(fs, r, path, stream, true, allowTraverse, asks, false).status.Success? {
      CheckIsExactUnless(fs, r, path, stream, true, allowTraverse, asks, false);
    }
  }

  // ---------- a file in a linked directory ----------

  const LETTER: WChar := 0x61

  /** A directory whose last component has the index 65. */
  function LinkedDirectory(): Wide
  {
    [BACKSLASH] + seq(63, _ => LETTER) + [BACKSLASH, LETTER]
  }

  function FileInIt(): Wide
  {
    LinkedDirectory() + [BACKSLASH, LETTER]
  }

  function StreamOfIt(): Wide
  {
    FileInIt() + [COLON, LETTER]
  }

  /** The directory is a reparse point; every access but writing is refused. */
  function GrudgingFileSystem(): FileSystem
  {
    FileSystem(Some(name => if name == LinkedDirectory() then Security(Success, {DIRECTORY, REPARSE_POINT}, 0, 0)
                            else Security(Success, {}, 1, 0)),
               (d, m) => if m <= {FILE_WRITE_DATA} then Allowed(m) else Refused({}), true, false)
  }

  lemma BitsOf65()
    ensures BitsOf(65) == {0, 6}
  {
    assert Power(0) == 1 && Power(1) == 2 && Power(2) == 4 && Power(3) == 8 && Power(4) == 16 && Power(5) == 32;
    assert Power(6) == 64;
    forall k: Bit | 6 < k < 32 ensures Power(k) > 65 { PowerGrows(7, k); }
  }

  lemma LinkedName(path: Wide, asked: Mask)
    requires NameOf(path, Target.Parent, 0) == LinkedDirectory() && BitsOf(SuffixIndexOf(LinkedDirectory())) == {0, 6}
    ensures CheckName(GrudgingFileSystem(), Create(true, true, true, false, {}), path, 0, Target.Parent, asked,
                      false) ==
            Result(Reparse, {0, 6}, None)
  {
    hide ParentOf, SuffixIndexOf, BitsOf, LinkedDirectory, NameOf;
  }

  /** The check of the parent comes back with the index of the link. */
  lemma LinkedParent(asked: Mask)
    ensures var r := Create(true, true, true, false, {});
            Check(GrudgingFileSystem(), r, FileInIt(), 0, true, false, asked, false) ==
              Result(Reparse, {FILE_LIST_DIRECTORY, FILE_DELETE_CHILD}, None)
  {
    var fs, r, path, dir := GrudgingFileSystem(), Create(true, true, true, false, {}), FileInIt(), LinkedDirectory();
    assert path == dir + [BACKSLASH] + [LETTER] && path != [BACKSLASH];
    ParentIs(path, dir, [BACKSLASH], [LETTER]);
    assert dir == ([BACKSLASH] + seq(63, _ => LETTER)) + [BACKSLASH] + [LETTER];
    ParentIs(dir, [BACKSLASH] + seq(63, _ => LETTER), [BACKSLASH], [LETTER]);
    BitsOf65();
    hide ParentOf, SuffixIndexOf, BitsOf, LinkedDirectory, FileInIt;
    assert NameOf(path, Target.Parent, 0) == dir;
    LinkedName(path, asked);
    hide CheckName, NameOf;
    assert CheckTraverse(fs, r, path, 0, Target.Parent, false, asked, false) == Result(Reparse, {0, 6}, None);
  }

  /** The check of a file in the linked directory, for itself or for a new stream, comes with both of the parent's
      rights. */
  lemma LinkedCheck(path: Wide, stream: nat, checkParentOrMain: bool, desired: Mask)
    requires if checkParentOrMain then path == StreamOfIt() && stream == |FileInIt()|
             else path == FileInIt() && stream == 0
    requires ParentCanHelp(desired) && desired <= {DELETE, FILE_READ_ATTRIBUTES, FILE_WRITE_DATA}
    ensures stream <= |path|
    ensures var r := Create(true, true, true, false, {});
            Check(GrudgingFileSystem(), r, path, stream, checkParentOrMain, false, desired, false) ==
              Result(Success, desired + {DELETE, FILE_READ_ATTRIBUTES}, None)
  {
    var fs, r, target := GrudgingFileSystem(), Create(true, true, true, false, {}), TargetOf(checkParentOrMain, stream);
    assert StreamOfIt()[..|FileInIt()|] == FileInIt() && FileInIt() != LinkedDirectory() && |FileInIt()| > 1;
    hide LinkedDirectory, FileInIt, StreamOfIt;
    assert NameOf(path, target, stream) == Cut(path, target, stream) == FileInIt();
    var file := fs.getSecurityByName.value(FileInIt());
    LinkedParent(ParentDesired(desired));
    LinkedAccess(path, stream, target, desired, file);
    var granted := desired + {DELETE, FILE_READ_ATTRIBUTES};
    assert CheckName(fs, r, path, stream, target, desired, false) == Result(Success, granted, None);
    assert CheckTraverse(fs, r, path, stream, target, false, desired, false) == Result(Success, granted, None);
  }

  lemma LinkedAccess(path: Wide, stream: nat, target: Target, desired: Mask, file: Security)
    requires stream <= |path| && Cut(path, target, stream) == FileInIt() && file == Security(Success, {}, 1, 0)
    requires ParentCanHelp(desired) && desired <= {DELETE, FILE_READ_ATTRIBUTES, FILE_WRITE_DATA}
    ensures var r := Create(true, true, true, false, {});
            CheckAccess(GrudgingFileSystem(), r, path, stream, target, desired, file) ==
              (Success, desired + {DELETE, FILE_READ_ATTRIBUTES})
  {
    var asked := ParentDesired(desired);
    LinkedParent(asked);
    hide Check, FileInIt, Cut;
    var inherited := FromParent({FILE_LIST_DIRECTORY, FILE_DELETE_CHILD});
    assert inherited == {DELETE, FILE_READ_ATTRIBUTES};
    assert (desired - inherited) + inherited == desired + inherited;
    assert DELETE in desired || FILE_READ_ATTRIBUTES in desired;
    if desired - inherited == {} { assert {} + inherited == desired + inherited; }
  }

  /** Where exactness fails, since the index of the link is taken for the rights of the parent.  A check for reading
      attributes comes with DELETE, which an open would take back.  An open, an overwrite and a new stream that ask for
      DELETE are granted the reading of attributes too. */
  lemma LinkedParentGrantsTooMuch()
    ensures Exact(GrudgingFileSystem()) && |FileInIt()| <= |StreamOfIt()|
    ensures var fs, r := GrudgingFileSystem(), Create(true, true, true, false, {});
            var both: Mask := {DELETE, FILE_READ_ATTRIBUTES};
            var open := Check(fs, r, FileInIt(), 0, false, false, OpenAsks({}, {DELETE}), false);
            var overwrite := Check(fs, r, FileInIt(), 0, false, false, OverwriteAsks({}, {DELETE}), false);
            var stream := Check(fs, r, StreamOfIt(), |FileInIt()|, true, false, StreamAsks({}, {DELETE}), false);
            && Check(fs, r, FileInIt(), 0, false, false, {FILE_READ_ATTRIBUTES}, false) == Result(Success, both, None)
            && open.status.Success? && OpenGrant({DELETE}, {}, open.granted) == both
            && overwrite.status.Success? && OverwriteGrant({DELETE}, {}, overwrite.granted) == both
            && stream.status.Success? && OverwriteGrant({DELETE}, {}, stream.granted) == both
  {
    hide Check, FileInIt;
    var both: Mask := {DELETE, FILE_READ_ATTRIBUTES};
    LinkedCheck(FileInIt(), 0, false, {FILE_READ_ATTRIBUTES});
    assert {FILE_READ_ATTRIBUTES} + both == both;
    assert OpenAsks({}, {DELETE}) == {DELETE} == OverwriteAsks({}, {DELETE}) && {DELETE} + both == both;
    LinkedCheck(FileInIt(), 0, false, {DELETE});
    assert StreamAsks({}, {DELETE}) == {DELETE, FILE_WRITE_DATA};
    LinkedCheck(StreamOfIt(), |FileInIt()|, true, {DELETE, FILE_WRITE_DATA});
  }
}
