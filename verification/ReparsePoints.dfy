/** The search for a reparse point and the resolution of reparse points, in place on a NUL-terminated path. */
module ReparsePoints {
  import opened Memory
  import opened WideStrings
  import opened ReparsePaths

  // ---------- scanning ----------

  /** Skips backslashes and then a component. */
  method ScanComponent(buf: array<WChar>, pos: nat, ghost path: Wide) returns (p: nat, end: nat)
    requires Holds(buf[..], path) && pos <= |path|
    ensures p == SkipSlashes(path, pos) && end == ComponentEnd(path, p)
    ensures |path| < buf.Length && (p < |path| ==> buf[p] == path[p]) && (p + 1 < |path| ==> buf[p + 1] == path[p + 1])
    ensures end < buf.Length && (buf[end] == NUL <==> end == |path|) && (end < |path| ==> buf[end] == path[end])
  {
    var r := pos;
    assert forall k :: 0 <= k < |path| ==> buf[k] == buf[..|path|][k] == path[k] && path[k] in path;
    while buf[r] == BACKSLASH
      invariant pos <= r <= |path| && SkipSlashes(path, r) == SkipSlashes(path, pos)
      decreases |path| - r
    {
      r := r + 1;
    }
    p := r;
    while buf[r] != BACKSLASH && buf[r] != NUL && buf[r] != COLON
      invariant p <= r <= |path| && ComponentEnd(path, r) == ComponentEnd(path, p)
      decreases |path| - r
    {
      r := r + 1;
    }
    end := r;
  }

  method ScanBackToSlash(buf: array<WChar>, p: nat, ghost path: Wide) returns (q: nat)
    requires Holds(buf[..], path) && p <= |path|
    ensures q == BackToSlash(path, p)
  {
    assert forall k :: 0 <= k < |path| ==> buf[k] == buf[..|path|][k] == path[k];
    q := p;
    while 0 < q
      invariant q <= |path| && BackToSlash(path, q) == BackToSlash(path, p)
    {
      q := q - 1;
      if buf[q] == BACKSLASH {
        break;
      }
    }
  }

  method ScanBackToName(buf: array<WChar>, p: nat, ghost path: Wide) returns (q: nat)
    requires Holds(buf[..], path) && p <= |path|
    ensures q == BackToName(path, p)
  {
    assert forall k :: 0 <= k < |path| ==> buf[k] == buf[..|path|][k] == path[k];
    q := p;
    while 0 < q
      invariant q <= |path| && BackToName(path, q) == BackToName(path, p)
    {
      q := q - 1;
      if buf[q] != BACKSLASH {
        break;
      }
    }
  }

  /** Asks the file system about the path up to `end`: the path is cut there for the call and put together again. */
  method LookUp(get: Lookups, buf: array<WChar>, end: nat, ghost path: Wide, isDirectory: bool) returns (looked: Lookup)
    requires Holds(buf[..], path) && end <= |path|
    modifies buf
    ensures buf[..] == old(buf[..]) && looked == get(path[..end], isDirectory)
  {
    var saved := buf[end];
    buf[end] := NUL;
    assert Holds(buf[..], path[..end]) by {
      SliceOfTake(old(buf[..]), |path|, 0, end);
      assert buf[..end] == old(buf[..])[..end];
    }
    HeldString(buf[..], path[..end]);
    looked := get(BeforeNul(buf[..]), isDirectory);
    buf[end] := saved;
  }

  // ---------- finding ----------

  /** The component at `index` is the first one that names a reparse point and is not the last one. */
  ghost predicate FirstReparseAt(get: Lookups, path: Wide, index: nat)
  {
    && index <= |path| && (index == 0 || path[index - 1] == BACKSLASH)
    && var e := ComponentEnd(path, index);
    && e < StreamStart(path) && PrefixEnds(path, e)
    && (get(path[..e], true).Symlink? || get(path[..e], true).Other?)
    && forall k :: k < e && PrefixEnds(path, k) ==> get(path[..k], true).NotReparse?
  }

  /** An error stops the search at `k`. */
  ghost predicate ErrorAt(get: Lookups, path: Wide, k: nat)
  {
    && k < StreamStart(path) && PrefixEnds(path, k)
    && (get(path[..k], true).NotFound? || get(path[..k], true).Failed?)
    && forall j :: j < k && PrefixEnds(path, j) ==> get(path[..j], true).NotReparse?
  }

  /** Finds the first directory prefix that is a reparse point. */
  method FindReparsePoint(get: Lookups, name: array<WChar>, ghost path: Wide) returns (found: bool, index: nat)
    requires Holds(name[..], path)
    modifies name
    ensures name[..] == old(name[..])
    ensures found ==> FirstReparseAt(get, path, index)
    ensures !found ==> Clean(get, false, path, StreamStart(path)) || exists k :: ErrorAt(get, path, k)
  {
    hide SkipSlashes, ComponentEnd, BeforeNul, EndsInDots, BackToSlash, BackToName, Holds;
    var r := 0;
    while true
      invariant r <= |path| && name[..] == old(name[..])
      invariant forall k :: 0 <= k < r ==> path[k] != COLON
      invariant Clean(get, false, path, r) && (r == 0 || (r < |path| && path[r] == BACKSLASH))
      decreases |path| - r
    {
      var p, end := ScanComponent(name, r, path);
      if name[end] != BACKSLASH {
        StreamStartIs(path, end);
        return false, 0;
      }
      assert p < end && (p == 0 || path[p - 1] == BACKSLASH);
      assert end < StreamStart(path) by { ColonAfter(path, end); }
      var looked := LookUp(get, name, end, path, true);
      match looked {
        case NotReparse =>
          r := end;
        case NotFound =>
          assert ErrorAt(get, path, end);
          return false, 0;
        case Failed =>
          assert ErrorAt(get, path, end);
          return false, 0;
        case _ =>
          return true, p;
      }
    }
  }

  /** Where a reparse point is found the search has no other result, so nothing is found exactly if there is none before
      an error. */
  lemma FindingIsExact(get: Lookups, path: Wide, index: nat, k: nat)
    requires FirstReparseAt(get, path, index)
    ensures !Clean(get, false, path, StreamStart(path)) && !ErrorAt(get, path, k)
    ensures FirstReparseAt(get, path, k) ==> k == index
  {
    var e := ComponentEnd(path, index);
    assert PrefixEnds(path, e);
    if FirstReparseAt(get, path, k) {
      assert PrefixEnds(path, ComponentEnd(path, k));
      assert ComponentEnd(path, k) == e;
    }
  }

  lemma {:induction false} ColonAfter(path: Wide, e: nat)
    requires e < |path| && forall k :: 0 <= k <= e ==> path[k] != COLON
    ensures e < StreamStart(path)
  {
    if e > 0 { ColonAfter(path[1..], e - 1); }
  }

  /** What is found is a place where resolution may start. */
  lemma FoundIsSettled(r: Request, path: Wide, index: nat)
    requires NUL !in path && FirstReparseAt(r.get, path, index)
    ensures Settled(r, false, State(path, index, MAX_TRIES, r.resolveLast))
  {
  }

  /** Finding a reparse point and resolving from there leaves no reparse point behind. */
  lemma FoundIsResolved(r: Request, path: Wide, index: nat)
    requires NUL !in path && FirstReparseAt(r.get, path, index)
    ensures var outcome := Resolve(r, State(path, index, 32, r.resolveLast));
            outcome.Resolved? && !outcome.absolute ==>
              var e := StreamStart(outcome.path);
              && (forall k :: k <= e && PrefixEnds(outcome.path, k) ==> r.get(outcome.path[..k], true).NotReparse?)
              && (r.resolveLast ==> var last := r.get(outcome.path[..e], false); last.NotReparse? || last.NotFound?)
  {
    FoundIsSettled(r, path, index);
    ResolvedIsClean(r, false, State(path, index, MAX_TRIES, r.resolveLast));
  }

  /** Resolving from the start leaves no dot and no dotdot behind either, other than in a last component that is not
      to be resolved. */
  lemma WholePathIsResolved(r: Request, path: Wide)
    requires NUL !in path
    ensures var outcome := Resolve(r, State(path, 0, 32, r.resolveLast));
            outcome.Resolved? && !outcome.absolute ==>
              var e := StreamStart(outcome.path);
              && (forall k :: k <= e && PrefixEnds(outcome.path, k) ==>
                    r.get(outcome.path[..k], true).NotReparse? && !EndsInDots(outcome.path[..k]))
              && (r.resolveLast ==> var last := r.get(outcome.path[..e], false); last.NotReparse? || last.NotFound?)
  {
    ResolvedIsClean(r, true, State(path, 0, MAX_TRIES, r.resolveLast));
  }

  // ---------- resolving ----------

  /** Moves the remainder of the path and puts the target in the gap, if the new path fits. */
  method Substitute(buf: array<WChar>, from: nat, target: Wide, end: nat, ghost path: Wide) returns (fits: bool)
    requires Holds(buf[..], path) && from <= end <= |path|
    modifies buf
    ensures fits <==> from + |target| + (|path| - end) + 1 <= buf.Length
    ensures fits ==> Holds(buf[..], Rewritten(path, from, target, end))
    ensures !fits ==> buf[..] == old(buf[..])
  {
    var n := Length(buf, end, path);
    if from + |target| + n + 1 > buf.Length {
      return false;
    }
    ghost var was := buf[..];
    forall i | 0 <= i < n + 1 {
      buf[from + |target| + i] := buf[end + i];
    }
    forall i | 0 <= i < |target| {
      buf[from + i] := target[i];
    }
    fits := true;
    SubstituteHolds(was, buf[..], path, from, target, end);
  }

  lemma SubstituteHolds(was: seq<WChar>, buf: seq<WChar>, path: Wide, from: nat, target: Wide, end: nat)
    requires Holds(was, path) && from <= end <= |path| && |was| == |buf|
    requires from + |target| + (|path| - end) + 1 <= |buf|
    requires forall i :: 0 <= i < from ==> buf[i] == was[i]
    requires forall i :: 0 <= i < |target| ==> buf[from + i] == target[i]
    requires forall i :: from + |target| <= i <= from + |target| + (|path| - end) ==>
             buf[i] == was[i - from - |target| + end]
    ensures Holds(buf, Rewritten(path, from, target, end))
  {
    hide BeforeNul, SkipSlashes, ComponentEnd, BackToSlash, BackToName, StreamStart;
    var s := path[..from] + target + path[end..];
    assert forall k :: 0 <= k < |path| ==> was[k] == was[..|path|][k] == path[k];
    forall i | 0 <= i < |s| ensures buf[i] == s[i] {
      if i < from {
      } else if i < from + |target| {
        assert buf[from + (i - from)] == target[i - from];
      } else {
        assert s[i] == path[end..][i - from - |target|];
      }
    }
    assert buf[..|s|] == s;
    CutHolds(buf, s);
  }

  lemma ResolveIsStep(r: Request, s: State)
    requires s.Sane()
    ensures Resolve(r, s) == if Step(r, s).Stop? then Step(r, s).outcome else Resolve(r, Step(r, s).state)
  {
    hide Step;
  }

  lemma ResolveStops(r: Request, s: State)
    requires s.Sane() && s.AtLast() && !s.last
    ensures Resolve(r, s) == Resolved(s.path, false, s.tries)
  {
  }

  lemma ResolveDrops(r: Request, s: State, from: nat)
    requires s.Sane() && !(s.AtLast() && !s.last)
    requires (IsDot(s.path, s.Start(), s.End()) && from == BackToSlash(s.path, s.Start())) ||
             (IsDotDot(s.path, s.Start(), s.End()) && from == BackToSlash(s.path, BackToName(s.path, s.Start())))
    ensures Replace(r, s, from, [], s.tries).Sane() && |Rewritten(s.path, from, [], s.End())| < |s.path|
    ensures Resolve(r, s) == Resolve(r, Replace(r, s, from, [], s.tries))
  {
    hide SkipSlashes, ComponentEnd, BeforeNul;
    Dropped(s.path, from, s.End());
  }

  lemma ResolveLooksUp(r: Request, s: State)
    requires s.Sane() && !(s.AtLast() && !s.last)
    requires !IsDot(s.path, s.Start(), s.End()) && !IsDotDot(s.path, s.Start(), s.End())
    ensures match r.get(s.path[..s.End()], !s.AtLast())
            case NotReparse =>
              s.pos <= s.End() && (s.pos == s.End() ==> s.AtLast()) &&
              Resolve(r, s) == Resolve(r, State(s.path, s.End(), s.tries, !s.AtLast() && s.last))
            case NotFound => Resolve(r, s) == if s.AtLast() then Resolved(s.path, false, s.tries) else NameNotFound
            case Failed => Resolve(r, s) == PathNotFound
            case Other(tag, size) =>
              Resolve(r, s) == if size > r.size then DataInvalid
                               else OtherReparse(tag, size, if tag == MOUNT_POINT_TAG then |s.path| - s.End() else 0)
            case Symlink(target, relative) => true
  {
    hide SkipSlashes, BeforeNul, BackToSlash, BackToName;
  }

  lemma SubstituteStep(r: Request, s: State, target: Wide, relative: bool, from: nat)
    requires s.Sane() && !(s.AtLast() && !s.last)
    requires !IsDot(s.path, s.Start(), s.End()) && !IsDotDot(s.path, s.Start(), s.End())
    requires r.get(s.path[..s.End()], !s.AtLast()) == Symlink(target, relative)
    requires from == LinkStart(s, target)
    ensures Step(r, s) ==
            if s.tries == 1 || from + |target| + (|s.path| - s.End()) + 1 > r.capacity then Stop(NotResolved)
            else if !relative && target != [] && target[0] == BACKSLASH then
              Stop(Resolved(Rewritten(s.path, from, target, s.End()), true, s.tries - 1))
            else Go(Replace(r, s, from, target, s.tries - 1))
  {
    hide Resolve, SkipSlashes, ComponentEnd, BeforeNul, BackToSlash, BackToName, Rewritten, IsDot, IsDotDot;
  }

  /** A substitution, after the number of tries is counted down. */
  lemma ResolveSubstitutes(r: Request, s: State, target: Wide, relative: bool, from: nat)
    requires s.Sane() && !(s.AtLast() && !s.last)
    requires !IsDot(s.path, s.Start(), s.End()) && !IsDotDot(s.path, s.Start(), s.End())
    requires r.get(s.path[..s.End()], !s.AtLast()) == Symlink(target, relative)
    requires from == LinkStart(s, target)
    ensures s.tries == 1 || from + |target| + (|s.path| - s.End()) + 1 > r.capacity ==> Resolve(r, s) == NotResolved
    ensures s.tries > 1 && from + |target| + (|s.path| - s.End()) + 1 <= r.capacity ==>
              var next := Replace(r, s, from, target, s.tries - 1);
              next.Sane() &&
              Resolve(r, s) == if !relative && target != [] && target[0] == BACKSLASH
                               then Resolved(next.path, true, next.tries)
                               else Resolve(r, next)
  {
    hide Resolve, Step, SkipSlashes, ComponentEnd, BeforeNul, BackToSlash, BackToName, Rewritten, IsDot, IsDotDot;
    ResolveIsStep(r, s);
    SubstituteStep(r, s, target, relative, from);
    KeepsPrefix(s.path, from, target, s.End());
  }

  /** What one round of the resolution leads to. */
  datatype Verdict = Again | Exit | Give(outcome: Outcome)

  /** One round: the path in the buffer is rewritten, or the position moves on, or the resolution is over. */
  method ResolveRound(r: Request, buf: array<WChar>, pos: nat, tries: nat, last: bool, ghost s: State)
    returns (verdict: Verdict, pos': nat, tries': nat, last': bool, absolute: bool, ghost path: Wide)
    requires s.Sane() && pos == s.pos && tries == s.tries && last == s.last
    requires Holds(buf[..], s.path) && buf.Length == r.capacity
    modifies buf
    ensures verdict.Give? ==> Resolve(r, s) == verdict.outcome && !verdict.outcome.Resolved?
    ensures !verdict.Give? ==> Holds(buf[..], path)
    ensures verdict.Exit? ==> Resolve(r, s) == Resolved(path, absolute, tries')
    ensures verdict.Again? ==>
            var t := State(path, pos', tries', last'); t.Sane() && Smaller(t, s) && Resolve(r, s) == Resolve(r, t)
  {
    hide Resolve, Step, SkipSlashes, ComponentEnd, BackToSlash, BackToName, BeforeNul, Rewritten, StreamStart, Holds,
      Replace;
    pos', tries', last', absolute, path := pos, tries, last, false, s.path;
    var component, remainder := ScanComponent(buf, pos, s.path);
    var isLast := buf[remainder] != BACKSLASH;
    assert component == s.Start() && remainder == s.End() && isLast == s.AtLast();
    if isLast {
      if !last {
        ResolveStops(r, s);
        return Exit, pos', tries', last', absolute, path;
      }
      last' := false;
    }
    var from: nat;
    if buf[component] == DOT && remainder == component + 1 {
      from := ScanBackToSlash(buf, component, s.path);
      verdict, pos', last', path := ResolveDot(r, buf, from, remainder, s);
      return;
    }
    if buf[component] == DOT && buf[component + 1] == DOT && remainder == component + 2 {
      from := ScanBackToName(buf, component, s.path);
      from := ScanBackToSlash(buf, from, s.path);
      verdict, pos', last', path := ResolveDot(r, buf, from, remainder, s);
      return;
    }
    var looked := LookUp(r.get, buf, remainder, s.path, !isLast);
    ResolveLooksUp(r, s);
    match looked {
      case NotReparse =>
        return Again, remainder, tries', last', absolute, path;
      case NotFound =>
        return if isLast then Exit else Give(NameNotFound), pos', tries', last', absolute, path;
      case Failed =>
        return Give(PathNotFound), pos', tries', last', absolute, path;
      case Other(tag, size) =>
        if size > r.size {
          return Give(DataInvalid), pos', tries', last', absolute, path;
        }
        var rest := 0;
        if tag == MOUNT_POINT_TAG {
          rest := Length(buf, remainder, s.path);
        }
        return Give(OtherReparse(tag, size, rest)), pos', tries', last', absolute, path;
      case Symlink(target, relative) =>
        tries' := tries - 1;
        if tries' == 0 {
          ResolveSubstitutes(r, s, target, relative, LinkStart(s, target));
          return Give(NotResolved), pos', tries', last', absolute, path;
        }
        verdict, pos', last', absolute, path := ResolveLink(r, buf, component, remainder, target, relative, s);
    }
  }

  /** The part of a round that deals with dot and dotdot. */
  method ResolveDot(r: Request, buf: array<WChar>, from: nat, remainder: nat, ghost s: State)
    returns (verdict: Verdict, pos: nat, last: bool, ghost path: Wide)
    requires s.Sane() && remainder == s.End() && !(s.AtLast() && !s.last)
    requires (IsDot(s.path, s.Start(), s.End()) && from == BackToSlash(s.path, s.Start())) ||
             (IsDotDot(s.path, s.Start(), s.End()) && from == BackToSlash(s.path, BackToName(s.path, s.Start())))
    requires Holds(buf[..], s.path) && buf.Length == r.capacity
    modifies buf
    ensures verdict.Again? && Holds(buf[..], path)
    ensures var t := State(path, pos, s.tries, last); t.Sane() && Smaller(t, s) && Resolve(r, s) == Resolve(r, t)
  {
    hide Resolve, Step, SkipSlashes, ComponentEnd, BackToSlash, BackToName, BeforeNul, Rewritten;
    ResolveDrops(r, s, from);
    var fits := Substitute(buf, from, [], remainder, s.path);
    verdict, pos, last := Again, from, r.resolveLast;
    path := Rewritten(s.path, from, [], remainder);
  }

  /** The part of a round that deals with a symbolic link. */
  method ResolveLink(r: Request, buf: array<WChar>, component: nat, remainder: nat, target: Wide, relative: bool,
                     ghost s: State)
    returns (verdict: Verdict, pos: nat, last: bool, absolute: bool, ghost path: Wide)
    requires s.Sane() && component == s.Start() && remainder == s.End() && !(s.AtLast() && !s.last) && s.tries > 1
    requires !IsDot(s.path, s.Start(), s.End()) && !IsDotDot(s.path, s.Start(), s.End())
    requires r.get(s.path[..s.End()], !s.AtLast()) == Symlink(target, relative)
    requires Holds(buf[..], s.path) && buf.Length == r.capacity
    modifies buf
    ensures verdict.Give? ==> Resolve(r, s) == verdict.outcome && !verdict.outcome.Resolved?
    ensures !verdict.Give? ==> Holds(buf[..], path)
    ensures verdict.Exit? ==> Resolve(r, s) == Resolved(path, absolute, s.tries - 1)
    ensures verdict.Again? ==>
              var t := State(path, pos, s.tries - 1, last); t.Sane() && Smaller(t, s) && Resolve(r, s) == Resolve(r, t)
  {
    hide Resolve, Step, SkipSlashes, ComponentEnd, BeforeNul, Rewritten, IsDot, IsDotDot, Holds, State.AtLast;
    var from := if |target| >= 1 && target[0] == BACKSLASH then 0 else component;
    ResolveSubstitutes(r, s, target, relative, from);
    pos, last, absolute, path := from, r.resolveLast, false, Rewritten(s.path, from, target, remainder);
    var fits := Substitute(buf, from, target, remainder, s.path);
    if !fits {
      verdict := Give(NotResolved);
    } else if !relative && |target| >= 1 && target[0] == BACKSLASH {
      verdict, absolute := Exit, true;
    } else {
      verdict := Again;
    }
  }

  /** Resolves the reparse points of a path from a component on, in the output buffer `buf`. */
  method ResolveReparsePoints(r: Request, buf: array<WChar>, fileName: Wide, index: nat)
    returns (outcome: Outcome, lengths: (nat, nat, nat))
    requires NUL !in fileName && index <= |fileName| && buf.Length == r.capacity
    modifies buf
    ensures outcome == if 20 + 2 * (|fileName| + 1) > r.size then NotResolved
                       else Resolve(r, State(fileName, index, 32, r.resolveLast))
    ensures outcome.Resolved? ==> Holds(buf[..], outcome.path) && 20 + 2 * (|outcome.path| + 1) <= r.size
    ensures outcome.Resolved? && 2 * |outcome.path| + 12 < 0x1_0000 ==>
              var n := |outcome.path|; lengths == (2 * n, 2 * n + 12, 2 * n + 20)
    ensures r.size <= 0x1_0000 && outcome.Resolved? ==> 2 * |outcome.path| + 12 < 0x1_0000
  {
    hide Resolve, BeforeNul, Holds, LengthFields;
    lengths := (0, 0, 0);
    RoomInBytes(r, |fileName|);
    if |fileName| + 1 > buf.Length {
      return NotResolved, lengths;
    }
    forall i | 0 <= i < |fileName| {
      buf[i] := fileName[i];
    }
    buf[|fileName|] := NUL;
    StartsHolding(buf, fileName);
    ghost var start := State(fileName, index, MAX_TRIES, r.resolveLast);
    ghost var path := fileName;
    var pos: nat := index;
    var tries, last, absolute, verdict := MAX_TRIES, r.resolveLast, false, Again;
    while verdict.Again?
      invariant verdict.Give? ==> Resolve(r, start) == verdict.outcome && !verdict.outcome.Resolved?
      invariant !verdict.Give? ==> Holds(buf[..], path)
      invariant verdict.Exit? ==> Resolve(r, start) == Resolved(path, absolute, tries)
      invariant verdict.Again? ==>
                  State(path, pos, tries, last).Sane() && Resolve(r, start) == Resolve(r, State(path, pos, tries, last))
      decreases verdict.Again?, tries, |path|, |path| - pos, if last then 1 else 0
    {
      verdict, pos, tries, last, absolute, path :=
        ResolveRound(r, buf, pos, tries, last, State(path, pos, tries, last));
    }
    if verdict.Give? {
      return verdict.outcome, lengths;
    }
    var n := Length(buf, 0, path);
    HeldString(buf[..], path);
    outcome := Resolved(BeforeNul(buf[..]), absolute, tries);
    lengths := LengthFields(n);
    LengthFieldsAreExact(n);
    ResolvedFits(r, start);
  }
}
