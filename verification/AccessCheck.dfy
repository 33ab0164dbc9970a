/** The access check in place: it cuts the path of the request where it needs to and puts everything back. */
module AccessCheck {
  import opened Memory
  import opened WideStrings
  import opened Paths
  import opened AccessMasks
  import opened AccessRights

  class Request {
    const create: Create
    const buffer: array<WChar>                      // holds the path
    var namedStream: nat                            // where the stream starts in the path, or 0

    constructor (create: Create, buffer: array<WChar>, namedStream: nat)
      ensures this.create == create && this.buffer == buffer && this.namedStream == namedStream
    {
      this.create, this.buffer, this.namedStream := create, buffer, namedStream;
    }
  }

  /** The security of a directory prefix of the name in the buffer, which is cut at `j` for the calls. */
  method CheckPrefix(fs: FileSystem, buf: array<WChar>, j: nat, ghost name: Wide) returns (t: Traversal)
    requires fs.getSecurityByName.Some? && Holds(buf[..], name) && j < |name| && name[j] == BACKSLASH
    modifies buf
    ensures buf[..] == old(buf[..]) && t == TraverseOne(fs, PrefixAt(name, j))
  {
    ghost var was := buf[..];
    CharsHeld(buf, name);
    buf[j] := NUL;
    assert Holds(buf[..], name[..j]) by {
      SliceOfTake(was, |name|, 0, j);
      assert buf[..j] == was[..j];
    }
    HeldString(buf[..], name[..j]);
    var prefix := if j > 0 then BeforeNul(buf[..]) else [BACKSLASH];
    var sec := fs.getSecurityByName.value(prefix);
    var status, attributes := sec.status, sec.attributes;
    if status.Ok() && !status.Reparse? && REPARSE_POINT in attributes {
      var index;
      if j > 0 {
        index := SuffixIndex(buf, name[..j]);
      } else {
        index := RootIndex();
      }
      attributes, status := BitsOf(index), Reparse;
    }
    buf[j] := BACKSLASH;
    assert buf[..] == was;
    if !status.Ok() || status.Reparse? {
      return Stopped(if status.NameNotFound? then PathNotFound else status, attributes);
    }
    if DIRECTORY !in attributes {
      return Stopped(PathNotFound, attributes);
    }
    if 0 < sec.size {
      var verdict := fs.accessCheck(sec.descriptor, {FILE_TRAVERSE});
      if !verdict.Allowed? {
        return Stopped(verdict.ToStatus(), attributes);
      }
    }
    return Passed;
  }

  /** The index that is found for the root, on a copy of it. */
  method RootIndex() returns (index: nat)
    ensures index == SuffixIndexOf([BACKSLASH])
  {
    var root := new WChar[] [BACKSLASH, NUL];
    assert root[..1] == [BACKSLASH];
    index := SuffixIndex(root, [BACKSLASH]);
  }

  method ScanComponent(buf: array<WChar>, i: nat, ghost name: Wide) returns (j: nat)
    requires i <= |name| && Holds(buf[..], name)
    ensures j == ComponentEnd(name, i) && j < buf.Length && (buf[j] == BACKSLASH <==> j < |name| && name[j] != COLON)
  {
    CharsHeld(buf, name);
    j := i;
    while buf[j] != BACKSLASH && buf[j] != NUL && buf[j] != COLON
      invariant i <= j <= |name| && ComponentEnd(name, j) == ComponentEnd(name, i)
      decreases |name| - j
    {
      j := j + 1;
    }
  }

  method ScanSlashes(buf: array<WChar>, i: nat, ghost name: Wide) returns (j: nat)
    requires i <= |name| && Holds(buf[..], name)
    ensures j == SkipSlashes(name, i)
  {
    CharsHeld(buf, name);
    j := i;
    while buf[j] == BACKSLASH
      invariant i <= j <= |name| && SkipSlashes(name, j) == SkipSlashes(name, i)
      decreases |name| - j
    {
      j := j + 1;
    }
  }

  /** The traverse check of the name in the buffer. */
  method CheckDirectories(fs: FileSystem, buf: array<WChar>, ghost name: Wide) returns (t: Traversal)
    requires fs.getSecurityByName.Some? && Holds(buf[..], name)
    modifies buf
    ensures buf[..] == old(buf[..]) && t == Traverse(fs, name, 0)
  {
    hide TraverseOne, BeforeNul, ComponentEnd, SkipSlashes, PrefixAt;
    var remain := 0;
    while true
      invariant remain <= |name| && buf[..] == old(buf[..]) && Traverse(fs, name, remain) == Traverse(fs, name, 0)
      decreases |name| - remain
    {
      remain := ScanComponent(buf, remain, name);
      if buf[remain] != BACKSLASH {
        return Passed;
      }
      t := CheckPrefix(fs, buf, remain, name);
      remain := ScanSlashes(buf, remain + 1, name);
      if t.Stopped? {
        return;
      }
    }
  }

  /** The access check with the path cut, and `root` telling that the name is the root instead. */
  method CheckCut(fs: FileSystem, request: Request, root: bool, target: Target, allowTraverse: bool, desired: Mask,
                  want: bool, ghost path: Wide, ghost stream: nat)
    returns (result: Result)
    requires fs.getSecurityByName.Some? && stream <= |path| && Holds(request.buffer[..], Cut(path, target, stream))
    requires NameOf(path, target, stream) == if root then [BACKSLASH] else Cut(path, target, stream)
    modifies request`namedStream, request.buffer
    ensures request.buffer[..] == old(request.buffer[..]) && request.namedStream == old(request.namedStream)
    ensures result == CheckTraverse(fs, request.create, path, stream, target, allowTraverse, desired, want)
    decreases if ParentCanHelp(desired) then 1 else 0, 2
  {
    hide BeforeNul, Traverse, CheckAccess, CheckAttributes, NameOf, Cut, BitsOf;
    var r, buf := request.create, request.buffer;
    ghost var cut := Cut(path, target, stream);
    HeldString(buf[..], cut);
    var fileName := if root then [BACKSLASH] else BeforeNul(buf[..]);
    if r.userMode && allowTraverse && !r.hasTraversePrivilege && fileName != [BACKSLASH] {
      var t := CheckDirectories(fs, buf, cut);
      if t.Stopped? {
        return Result(t.status, if t.status.Reparse? then t.attributes else {}, None);
      }
    }
    var sec := fs.getSecurityByName.value(fileName);
    if !sec.status.Ok() {
      return Result(sec.status, {}, None);
    }
    if sec.status.Reparse? {
      return Result(Reparse, sec.attributes, None);
    }
    if target.Itself? && r.hasTrailingBackslash && DIRECTORY !in sec.attributes {
      return Result(NameInvalid, {}, None);
    }
    var status, granted := CheckRights(fs, request, target, desired, sec, path, stream);
    if !status.Ok() {
      return Result(status, granted, None);
    }
    result := FinishAttributes(fs, r, buf, root, target, desired, want, sec, granted, cut);
  }

  /** The system's access check of the name, and the parent's help if it is refused. */
  method CheckRights(fs: FileSystem, request: Request, target: Target, desired: Mask, sec: Security,
                     ghost path: Wide, ghost stream: nat)
    returns (status: Status, granted: Mask)
    requires stream <= |path| && Holds(request.buffer[..], Cut(path, target, stream))
    modifies request`namedStream, request.buffer
    ensures request.buffer[..] == old(request.buffer[..]) && request.namedStream == old(request.namedStream)
    ensures (status, granted) == CheckAccess(fs, request.create, path, stream, target, desired, sec)
    decreases if ParentCanHelp(desired) then 1 else 0, 1
  {
    hide Check, NameOf, Cut, FromParent, ParentDesired, BeforeNul;
    if !(request.create.userMode && 0 < sec.size) || desired == {} {
      return Success, {};
    }
    var first := fs.accessCheck(sec.descriptor, desired);
    status, granted := first.ToStatus(), first.granted;
    if first.Allowed? || !status.AccessDenied? || !ParentCanHelp(desired) {
      return;
    }
    ParentRightsDoNotRecur(desired);
    var saved := request.namedStream;
    request.namedStream := 0;
    var parent := AccessCheckEx(fs, request, true, false, ParentDesired(desired), false, Cut(path, target, stream));
    request.namedStream := saved;
    if !parent.status.Ok() {
      return AccessDenied, granted;
    }
    var rest := desired - FromParent(parent.granted);
    if rest != {} {
      var second := fs.accessCheck(sec.descriptor, rest);
      granted := second.granted;
      if !second.Allowed? {
        return AccessDenied, granted;
      }
    }
    return Success, granted + FromParent(parent.granted);
  }

  /** The end of the check, where the attributes are looked at. */
  method FinishAttributes(fs: FileSystem, r: Create, buf: array<WChar>, root: bool, target: Target, desired: Mask,
                          want: bool, sec: Security, granted: Mask, ghost cut: Wide)
    returns (result: Result)
    requires Holds(buf[..], cut)
    modifies buf
    ensures buf[..] == old(buf[..])
    ensures result == CheckAttributes(fs, r, if root then [BACKSLASH] else cut, target, desired, want, sec, granted)
  {
    hide BeforeNul, SuffixIndexOf, BitsOf;
    var isReparse, isDirectory := REPARSE_POINT in sec.attributes, DIRECTORY in sec.attributes;
    if isReparse && (target.Parent? || OPEN_REPARSE_POINT !in r.createOptions) {
      var index;
      if root {
        index := RootIndex();
      } else {
        index := SuffixIndex(buf, cut);
      }
      return Result(Reparse, BitsOf(index), None);
    }
    if target.Parent? && !isDirectory {
      return Result(NotADirectory, granted, None);
    }
    if target.Itself? && !(isReparse && fs.noReparseDirCheck) {
      if DIRECTORY_FILE in r.createOptions && !isDirectory {
        return Result(NotADirectory, granted, None);
      }
      if NON_DIRECTORY_FILE in r.createOptions && isDirectory {
        return Result(FileIsADirectory, granted, None);
      }
    }
    var g := granted;
    if r.userMode {
      var isReadOnly := READONLY in sec.attributes;
      if isReadOnly && !isDirectory && desired * WRITE_RIGHTS != {} {
        return Result(AccessDenied, granted, None);
      }
      if isReadOnly && DELETE_ON_CLOSE in r.createOptions {
        return Result(CannotDelete, granted, None);
      }
      if sec.size == 0 {
        g := GrantAll(desired);
      }
      if isReadOnly && !isDirectory && MAXIMUM_ALLOWED in desired {
        g := g - WRITE_RIGHTS;
      }
    } else {
      g := GrantAll(desired);
    }
    return Result(Success, g, if want && 0 < sec.size then Some(sec.descriptor) else None);
  }

  /** Checks access to the path of a request.  Path and stream offset are as before whatever comes out; the call that
      asks the parent is never more than one call deep. */
  method AccessCheckEx(fs: FileSystem, request: Request, checkParentOrMain: bool, allowTraverse: bool, desired: Mask,
                       want: bool, ghost path: Wide)
    returns (result: Result)
    requires Holds(request.buffer[..], path)
    requires request.namedStream != 0 ==> request.namedStream < |path| && path[request.namedStream] == COLON
    modifies request`namedStream, request.buffer
    ensures request.buffer[..] == old(request.buffer[..]) && request.namedStream == old(request.namedStream)
    ensures result ==
            Check(fs, request.create, path, request.namedStream, checkParentOrMain, allowTraverse, desired, want)
    decreases if ParentCanHelp(desired) then 1 else 0
  {
    hide BeforeNul, CheckTraverse, SuffixOf, CutOf, BitsOf;
    var r, buf, stream := request.create, request.buffer, request.namedStream;
    var target := TargetOf(checkParentOrMain, stream);
    CharsHeld(buf, path);
    if !r.isCreate {
      return Result(InvalidParameter, {}, None);
    }
    if target.Parent? && buf[0] == BACKSLASH && buf[1] == NUL {
      assert path == [BACKSLASH];
      return Result(InvalidParameter, {}, None);
    }
    assert target.Parent? ==> path != [BACKSLASH];
    if fs.getSecurityByName.None? || (!r.userMode && !want) {
      return Result(Success, GrantAll(desired), None);
    }
    ghost var was := buf[..];
    var root, suffix := false, 0;
    if target.Parent? {
      root, suffix := PathSuffix(buf, path);
    } else if target.MainFile? {
      buf[stream] := NUL;
    }
    CutHeld(was, buf[..], path, target, stream, root);
    if !fs.memory {
      result := Result(InsufficientResources, {}, None);
    } else {
      result := CheckCut(fs, request, root, target, allowTraverse, desired, want, path, stream);
    }
    if target.Parent? {
      UndoSplit(was, buf[..], path, suffix);
      PathCombine(buf, suffix);
      if result.status.NameNotFound? {
        result := result.(status := PathNotFound);
      }
    } else if target.MainFile? {
      buf[stream] := COLON;
    }
  }

  /** Cutting the buffer leaves the name that is checked, or the root in its place. */
  lemma CutHeld(was: seq<WChar>, buf: seq<WChar>, path: Wide, target: Target, stream: nat, root: bool)
    requires Holds(was, path) && stream <= |path|
    requires target.Itself? ==> buf == was && !root
    requires target.MainFile? ==> stream < |path| && buf == was[stream := NUL] && !root
    requires target.Parent? ==>
               if BACKSLASH in path then
                 buf == was[CutOf(path, SuffixOf(path, |path|)) := NUL] &&
                 (root <==> CutOf(path, SuffixOf(path, |path|)) == 0)
               else buf == was && !root
    ensures Holds(buf, Cut(path, target, stream))
    ensures NameOf(path, target, stream) == if root then [BACKSLASH] else Cut(path, target, stream)
  {
    var cut := Cut(path, target, stream);
    assert NUL !in cut by { assert forall k :: 0 <= k < |cut| ==> cut[k] == path[k] && path[k] in path; }
    SliceOfTake(was, |path|, 0, |cut|);
    assert buf[..|cut|] == was[..|cut|];
  }
}
