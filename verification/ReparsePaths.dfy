/** The resolution of reparse points as a rewriter of paths, and what it guarantees. */
module ReparsePaths {
  import opened Memory
  import opened WideStrings

  /** What the file system says about a path. */
  datatype Lookup =
    | NotReparse
    | NotFound
    | Failed                                        // any other error
    | Symlink(target: Wide, relative: bool)
    | Other(tag: nat, size: nat)                    // a reparse point of another kind, with the size of its data

  /** The file system, asked for a path and for whether a directory is expected there. */
  type Lookups = (Wide, bool) -> Lookup

  datatype Outcome =
    | Resolved(path: Wide, absolute: bool, triesLeft: nat)
    | OtherReparse(tag: nat, size: nat, remainder: nat)
    | NotResolved
    | DataInvalid
    | NameNotFound
    | PathNotFound

  const MAX_TRIES: nat := 32
  const MOUNT_POINT_TAG: nat := 0xA000_0003

  // ---------- the parts of a path ----------

  /** The last backslash before `p`, or the start of the path. */
  function BackToSlash(path: Wide, p: nat): (q: nat)
    requires p <= |path|
    ensures q <= p && (q > 0 ==> q < p && path[q] == BACKSLASH)
    ensures p > 0 ==> q < p
    ensures forall k :: q < k < p ==> path[k] != BACKSLASH
  {
    if p == 0 then 0 else if path[p - 1] == BACKSLASH then p - 1 else BackToSlash(path, p - 1)
  }

  /** The last place before `p` that is not a backslash, or the start of the path. */
  function BackToName(path: Wide, p: nat): (q: nat)
    requires p <= |path|
    ensures q <= p && (q > 0 ==> q < p && path[q] != BACKSLASH)
    ensures forall k :: q < k < p ==> path[k] == BACKSLASH
  {
    if p == 0 then 0 else if path[p - 1] != BACKSLASH then p - 1 else BackToName(path, p - 1)
  }

  predicate IsDot(path: Wide, p: nat, end: nat)
  {
    p + 1 == end <= |path| && path[p] == DOT
  }

  predicate IsDotDot(path: Wide, p: nat, end: nat)
  {
    p + 2 == end <= |path| && path[p] == DOT && path[p + 1] == DOT
  }

  /** The path with what stands between `from` and `end` replaced. */
  function Rewritten(path: Wide, from: nat, target: Wide, end: nat): Wide
    requires from <= |path| && end <= |path|
  {
    BeforeNul(path[..from] + target + path[end..])
  }

  /** The end of the part of a path that is resolved. */
  function StreamStart(path: Wide): (e: nat)
    ensures e <= |path| && (e < |path| ==> path[e] == COLON)
    ensures forall k :: 0 <= k < e ==> path[k] != COLON
  {
    if path == [] || path[0] == COLON then 0 else 1 + StreamStart(path[1..])
  }

  // ---------- the resolution ----------

  const PATH_OFFSET: nat := 20                      // of the path in the reparse data
  const DATA_OFFSET: nat := 8                       // of the data in the reparse data

  /** What is fixed during a resolution: the file system, whether the last component counts, and the size of the
      output in bytes.  The output has room for that many bytes of other reparse data, or for a path behind a header. */
  datatype Request = Request(get: Lookups, resolveLast: bool, size: nat)
  {
    const capacity: nat := if size < PATH_OFFSET then 0 else (size - PATH_OFFSET) / 2
  }

  /** Resolution goes on at `pos`; `last` says whether the last component is still to be resolved. */
  datatype State = State(path: Wide, pos: nat, tries: nat, last: bool)
  {
    predicate Sane()
    {
      NUL !in path && pos <= |path| && 1 <= tries
    }

    /** Where the next component starts and ends, and whether it is the last one. */
    function Start(): (p: nat)
      requires Sane()
      ensures pos <= p <= |path|
    {
      SkipSlashes(path, pos)
    }

    function End(): (e: nat)
      requires Sane()
      ensures Start() <= e <= |path|
    {
      ComponentEnd(path, Start())
    }

    predicate AtLast()
      requires Sane()
    {
      End() == |path| || path[End()] == COLON
    }
  }

  datatype Next = Stop(outcome: Outcome) | Go(state: State)

  /** The order in which resolution makes progress. */
  predicate Smaller(t: State, s: State)
  {
    || t.tries < s.tries
    || (t.tries == s.tries && |t.path| < |s.path|)
    || (t.tries == s.tries && |t.path| == |s.path| && t.pos <= |t.path| &&
        (s.pos < t.pos || (s.pos == t.pos && s.last && !t.last)))
  }

  /** Goes on at `from` with the component dropped, or with `target` in its place. */
  function Replace(r: Request, s: State, from: nat, target: Wide, tries: nat): State
    requires s.Sane() && from <= |s.path|
  {
    State(Rewritten(s.path, from, target, s.End()), from, tries, r.resolveLast)
  }

  function LinkStart(s: State, target: Wide): (from: nat)
    requires s.Sane()
    ensures from <= s.Start()
  {
    if target != [] && target[0] == BACKSLASH then 0 else s.Start()
  }

  /** Looks at one component. */
  function Step(r: Request, s: State): (n: Next)
    requires s.Sane()
    ensures n.Go? ==> n.state.Sane() && Smaller(n.state, s)
  {
    var p, end, path := s.Start(), s.End(), s.path;
    if s.AtLast() && !s.last then Stop(Resolved(path, false, s.tries))
    else if IsDot(path, p, end) then
      Dropped(path, BackToSlash(path, p), end);
      Go(Replace(r, s, BackToSlash(path, p), [], s.tries))
    else if IsDotDot(path, p, end) then
      Dropped(path, BackToSlash(path, BackToName(path, p)), end);
      Go(Replace(r, s, BackToSlash(path, BackToName(path, p)), [], s.tries))
    else
      match r.get(path[..end], !s.AtLast())
      case NotReparse => Go(State(path, end, s.tries, !s.AtLast() && s.last))
      case NotFound => Stop(if s.AtLast() then Resolved(path, false, s.tries) else NameNotFound)
      case Failed => Stop(PathNotFound)
      case Other(tag, size) =>
        Stop(if size > r.size then DataInvalid
             else OtherReparse(tag, size, if tag == MOUNT_POINT_TAG then |path| - end else 0))
      case Symlink(target, relative) =>
        var from := LinkStart(s, target);
        KeepsPrefix(path, from, target, end);
        if s.tries == 1 || from + |target| + (|path| - end) + 1 > r.capacity then Stop(NotResolved)
        else if !relative && target != [] && target[0] == BACKSLASH then
          Stop(Resolved(Rewritten(path, from, target, end), true, s.tries - 1))
        else Go(Replace(r, s, from, target, s.tries - 1))
  }

  /** Steps to the end. */
  function Resolve(r: Request, s: State): Outcome
    requires s.Sane()
    decreases s.tries, |s.path|, |s.path| - s.pos, if s.last then 1 else 0
  {
    match Step(r, s)
    case Stop(outcome) => outcome
    case Go(t) => Resolve(r, t)
  }

  /** Dropping a component leaves a shorter path, and no NUL in it. */
  lemma Dropped(path: Wide, from: nat, end: nat)
    requires NUL !in path && from < end <= |path|
    ensures Rewritten(path, from, [], end) == path[..from] + path[end..]
    ensures NUL !in Rewritten(path, from, [], end) && |Rewritten(path, from, [], end)| < |path|
  {
    assert path[..from] + [] + path[end..] == path[..from] + path[end..];
    assert forall k :: 0 <= k < |path| ==> path[k] in path;
  }

  lemma KeepsPrefix(path: Wide, from: nat, target: Wide, end: nat)
    requires NUL !in path && from <= |path| && end <= |path|
    ensures from <= |Rewritten(path, from, target, end)| && Rewritten(path, from, target, end)[..from] == path[..from]
    ensures NUL !in Rewritten(path, from, target, end)
  {
    var s := path[..from] + target + path[end..];
    assert forall k :: 0 <= k < from ==> s[k] == path[k] && path[k] in path;
    assert BeforeNul(s)[..from] == s[..from] == path[..from];
  }

  // ---------- what resolution guarantees ----------

  /** A path has room exactly if a header of 20 bytes, the path and its NUL are no more than the output. */
  lemma RoomInBytes(r: Request, n: nat)
    ensures n < r.capacity <==> 20 + 2 * (n + 1) <= r.size
  {
  }

  lemma StepFits(r: Request, s: State)
    requires s.Sane() && |s.path| < r.capacity
    ensures match Step(r, s)
            case Go(t) => |t.path| < r.capacity && t.tries <= s.tries
            case Stop(o) => o.Resolved? ==> |o.path| < r.capacity && NUL !in o.path && 1 <= o.triesLeft <= s.tries
  {
    hide IsDot, IsDotDot, SkipSlashes, ComponentEnd, BackToSlash, BackToName, BeforeNul;
  }

  /** Whether the component that is looked at is a symbolic link. */
  predicate FindsLink(r: Request, s: State)
    requires s.Sane()
  {
    && !(s.AtLast() && !s.last) && !IsDot(s.path, s.Start(), s.End()) && !IsDotDot(s.path, s.Start(), s.End())
    && r.get(s.path[..s.End()], !s.AtLast()).Symlink?
  }

  /** How many symbolic links are found on the way. */
  function LinksFound(r: Request, s: State): nat
    requires s.Sane()
    decreases s.tries, |s.path|, |s.path| - s.pos, if s.last then 1 else 0
  {
    (if FindsLink(r, s) then 1 else 0) + (if Step(r, s).Go? then LinksFound(r, Step(r, s).state) else 0)
  }

  /** How many symbolic links are replaced by their targets on the way: those that are found, unless the step gives
      up. */
  function Substitutions(r: Request, s: State): nat
    requires s.Sane()
    decreases s.tries, |s.path|, |s.path| - s.pos, if s.last then 1 else 0
  {
    (if FindsLink(r, s) && Step(r, s) != Stop(NotResolved) then 1 else 0) +
    (if Step(r, s).Go? then Substitutions(r, Step(r, s).state) else 0)
  }

  /** A link that is found costs a try, and nothing else does; the last try is not enough for one. */
  lemma StepCountsLinks(r: Request, s: State)
    requires s.Sane()
    ensures match Step(r, s)
            case Go(t) => t.tries == s.tries - (if FindsLink(r, s) then 1 else 0)
            case Stop(o) => if o.Resolved?
                            then o.triesLeft == s.tries - (if FindsLink(r, s) then 1 else 0) && o.triesLeft >= 1
                            else o == NotResolved <==> FindsLink(r, s)
  {
    hide IsDot, IsDotDot, SkipSlashes, ComponentEnd, BackToSlash, BackToName, BeforeNul, Rewritten;
  }

  /** However a resolution comes out, it makes at most 31 substitutions and looks at no more than 32 links, whatever
      the file system answers.  It does not get there only if it has found one more link than it has replaced. */
  lemma {:induction false} AtMost31Links(r: Request, s: State)
    requires s.Sane()
    ensures Substitutions(r, s) < s.tries && Substitutions(r, s) <= LinksFound(r, s) <= s.tries
    ensures var outcome := Resolve(r, s);
            && (outcome.Resolved? ==> Substitutions(r, s) == LinksFound(r, s) == s.tries - outcome.triesLeft)
            && (outcome == NotResolved <==> LinksFound(r, s) == Substitutions(r, s) + 1)
    ensures s.tries == MAX_TRIES ==> Substitutions(r, s) <= 31
    decreases s.tries, |s.path|, |s.path| - s.pos, if s.last then 1 else 0
  {
    hide Step, FindsLink;
    StepCountsLinks(r, s);
    match Step(r, s)
    case Stop(_) =>
    case Go(t) => AtMost31Links(r, t);
  }

  /** A resolution stays within its room. */
  lemma {:induction false} ResolvedFits(r: Request, s: State)
    requires s.Sane() && 20 + 2 * (|s.path| + 1) <= r.size
    ensures var outcome := Resolve(r, s);
            outcome.Resolved? ==> 20 + 2 * (|outcome.path| + 1) <= r.size && NUL !in outcome.path
    decreases s.tries, |s.path|, |s.path| - s.pos, if s.last then 1 else 0
  {
    hide Step;
    StepFits(r, s);
    match Step(r, s)
    case Stop(_) =>
    case Go(t) => ResolvedFits(r, t);
  }

  /** A prefix ends at `k` if a component does, with a backslash after it. */
  predicate PrefixEnds(path: Wide, k: int)
  {
    0 < k < |path| && path[k] == BACKSLASH && path[k - 1] != BACKSLASH
  }

  predicate EndsInDots(prefix: Wide)
  {
    var n := |prefix|;
    || (n >= 1 && prefix[n - 1] == DOT && (n == 1 || prefix[n - 2] == BACKSLASH))
    || (n >= 2 && prefix[n - 1] == DOT && prefix[n - 2] == DOT && (n == 2 || prefix[n - 3] == BACKSLASH))
  }

  /** It does if its last component is one of the two. */
  lemma EndsInDotsIs(dir: Wide, name: Wide)
    requires 0x5C !in name && (dir == [] || dir[|dir| - 1] == 0x5C)
    ensures EndsInDots(dir + name) <==> name == [0x2E] || name == [0x2E, 0x2E]
  {
    var prefix, n := dir + name, |dir + name|;
    forall k | |dir| <= k < n ensures prefix[k] == name[k - |dir|] && prefix[k] != BACKSLASH {
      assert name[k - |dir|] in name;
    }
    assert dir != [] ==> prefix[|dir| - 1] == BACKSLASH;
    if |name| == 1 { assert name == [name[0]]; }
    if |name| == 2 { assert name == [name[0], name[1]]; }
  }

  /** What resolution wants of a directory prefix: no reparse point, and, if `dots` is asked for, no dot or dotdot at
      its end. */
  predicate CleanPrefix(get: Lookups, dots: bool, prefix: Wide)
  {
    get(prefix, true).NotReparse? && (dots ==> !EndsInDots(prefix))
  }

  ghost predicate Clean(get: Lookups, dots: bool, path: Wide, n: nat)
  {
    forall k :: k <= n && PrefixEnds(path, k) ==> CleanPrefix(get, dots, path[..k])
  }

  /** Where resolution may go on: at the start of a component, before a backslash, or right behind a clean prefix. */
  predicate Boundary(get: Lookups, dots: bool, path: Wide, pos: nat)
    requires pos <= |path|
  {
    pos == 0 || path[pos - 1] == BACKSLASH || (pos < |path| && path[pos] == BACKSLASH) ||
      CleanPrefix(get, dots, path[..pos])
  }

  /** What holds whenever resolution goes on. */
  ghost predicate Settled(r: Request, dots: bool, s: State)
  {
    && s.Sane()
    && (forall k :: 0 <= k < s.pos ==> s.path[k] != COLON)
    && Clean(r.get, dots, s.path, s.pos)
    && (Boundary(r.get, dots, s.path, s.pos) || (!s.last && AtEnd(s)))
    && (s.last ==> r.resolveLast)
    && (r.resolveLast && !s.last ==> AtEnd(s) && r.get(s.path[..s.pos], false).NotReparse?)
  }

  predicate AtEnd(s: State)
    requires s.Sane()
  {
    s.pos == |s.path| || s.path[s.pos] == COLON
  }

  /** The part of a path before its stream is resolved. */
  ghost predicate FullyResolved(r: Request, dots: bool, path: Wide)
  {
    var e := StreamStart(path);
    && Clean(r.get, dots, path, e)
    && (r.resolveLast ==> r.get(path[..e], false).NotReparse? || r.get(path[..e], false).NotFound?)
  }

  /** Up to the end of the component every prefix is clean. */
  lemma CleanToEnd(r: Request, dots: bool, s: State)
    requires Settled(r, dots, s)
    ensures forall k :: k < s.End() && PrefixEnds(s.path, k) ==> CleanPrefix(r.get, dots, s.path[..k])
    ensures forall k :: 0 <= k < s.End() ==> s.path[k] != COLON
  {
  }

  lemma SettledAtEnd(r: Request, dots: bool, s: State)
    requires Settled(r, dots, s) && s.AtLast()
    requires s.last ==> r.get(s.path[..s.End()], false).NotFound?
    ensures FullyResolved(r, dots, s.path)
  {
    CleanToEnd(r, dots, s);
    StreamStartIs(s.path, s.End());
  }

  lemma {:induction false} StreamStartIs(path: Wide, e: nat)
    requires e <= |path| && (e < |path| ==> path[e] == COLON) && forall k :: 0 <= k < e ==> path[k] != COLON
    ensures StreamStart(path) == e
  {
  }

  lemma SettledAfterDrop(r: Request, dots: bool, s: State, from: nat)
    requires Settled(r, dots, s) && from <= s.Start() < s.End()
    requires from > 0 ==> s.path[from] == BACKSLASH
    ensures Settled(r, dots, Replace(r, s, from, [], s.tries))
  {
    hide *;
    SettledIsSane(r, dots, s);
    CleanToEnd(r, dots, s);
    KeepsPrefix(s.path, from, [], s.End());
    if from > 0 && s.path[from - 1] != BACKSLASH { PrefixEndsAt(s.path, from); }
    CleanCarriesOver(r.get, dots, s.path, Rewritten(s.path, from, [], s.End()), from);
    SettledAtStart(r, dots, s, from, []);
  }

  lemma PrefixEndsAt(path: Wide, k: nat)
    requires 0 < k < |path| && path[k] == BACKSLASH && path[k - 1] != BACKSLASH
    ensures PrefixEnds(path, k)
  {
  }

  /** A component that is neither dot nor dotdot does not make a path end in dots, nor does it behind a path that does
      not. */
  lemma NotInDots(path: Wide, p: nat, end: nat)
    requires p < end <= |path| && forall k :: p <= k < end ==> path[k] != BACKSLASH
    requires !IsDot(path, p, end) && !IsDotDot(path, p, end)
    requires p == 0 || path[p - 1] == BACKSLASH || !EndsInDots(path[..p])
    ensures !EndsInDots(path[..end])
  {
  }

  lemma SettledAfterCheck(r: Request, dots: bool, s: State)
    requires Settled(r, dots, s) && !(s.AtLast() && !s.last)
    requires !IsDot(s.path, s.Start(), s.End()) && !IsDotDot(s.path, s.Start(), s.End())
    requires r.get(s.path[..s.End()], !s.AtLast()).NotReparse?
    ensures Settled(r, dots, State(s.path, s.End(), s.tries, !s.AtLast() && s.last))
  {
    CleanToEnd(r, dots, s);
    if !s.AtLast() {
      LinkAtBoundary(r, dots, s);
      if dots { NotInDots(s.path, s.Start(), s.End()); }
    }
  }

  /** A substitution happens at the start of a component or right behind a clean prefix. */
  lemma LinkAtBoundary(r: Request, dots: bool, s: State)
    requires Settled(r, dots, s) && !(s.AtLast() && !s.last)
    ensures s.Start() == 0 || s.path[s.Start() - 1] == BACKSLASH || CleanPrefix(r.get, dots, s.path[..s.Start()])
  {
  }

  /** A path that agrees with a clean one up to the start of a component is clean up to there. */
  lemma CleanCarriesOver(get: Lookups, dots: bool, path: Wide, next: Wide, from: nat)
    requires from <= |path| && from <= |next| && next[..from] == path[..from]
    requires from == 0 || path[from - 1] == BACKSLASH || CleanPrefix(get, dots, path[..from])
    requires forall k :: k < from && PrefixEnds(path, k) ==> CleanPrefix(get, dots, path[..k])
    ensures Clean(get, dots, next, from)
  {
    hide CleanPrefix;
    forall k | 0 <= k < from ensures next[k] == path[k] { assert next[k] == next[..from][k] == path[..from][k]; }
    forall k | k <= from && PrefixEnds(next, k) ensures CleanPrefix(get, dots, next[..k]) {
      AgreeWithin(next, path, from, 0, k);
    }
  }

  lemma SettledAfterLink(r: Request, dots: bool, s: State, target: Wide)
    requires Settled(r, dots, s)
    requires s.Start() == 0 || s.path[s.Start() - 1] == BACKSLASH || CleanPrefix(r.get, dots, s.path[..s.Start()])
    ensures Settled(r, dots, Replace(r, s, LinkStart(s, target), target, s.tries))
  {
    hide *;
    SettledIsSane(r, dots, s);
    CleanToEnd(r, dots, s);
    var path, from := s.path, LinkStart(s, target);
    LinkStartIs(s, target);
    KeepsPrefix(path, from, target, s.End());
    CleanCarriesOver(r.get, dots, path, Rewritten(path, from, target, s.End()), from);
    SettledAtStart(r, dots, s, from, target);
  }

  lemma SettledAtStart(r: Request, dots: bool, s: State, from: nat, target: Wide)
    requires s.Sane() && from <= |s.path| && forall k :: 0 <= k < from ==> s.path[k] != COLON
    requires from == 0 || s.path[from - 1] == BACKSLASH || CleanPrefix(r.get, dots, s.path[..from])
    requires Clean(r.get, dots, Rewritten(s.path, from, target, s.End()), from)
    ensures Settled(r, dots, Replace(r, s, from, target, s.tries))
  {
    KeepsPrefix(s.path, from, target, s.End());
    hide Clean, CleanPrefix, Rewritten, SkipSlashes, ComponentEnd;
    var next := Rewritten(s.path, from, target, s.End());
    forall k | 0 <= k < from ensures next[k] == s.path[k] { assert next[k] == next[..from][k] == s.path[..from][k]; }
  }

  lemma LinkStartIs(s: State, target: Wide)
    requires s.Sane()
    ensures LinkStart(s, target) == 0 || LinkStart(s, target) == s.Start()
  {
  }

  lemma StepKeepsSettled(r: Request, dots: bool, s: State)
    requires Settled(r, dots, s)
    ensures match Step(r, s)
            case Go(t) => Settled(r, dots, t)
            case Stop(o) => o.Resolved? && !o.absolute ==> FullyResolved(r, dots, o.path)
  {
    hide Settled, FullyResolved, CleanPrefix, BeforeNul, SkipSlashes, ComponentEnd, BackToSlash, BackToName,
      Rewritten, State.Start, State.End, State.AtLast;
    SettledIsSane(r, dots, s);
    var p, end, path := s.Start(), s.End(), s.path;
    if s.AtLast() && !s.last {
      SettledAtEnd(r, dots, s);
    } else if IsDot(path, p, end) {
      SettledAfterDrop(r, dots, s, BackToSlash(path, p));
    } else if IsDotDot(path, p, end) {
      SettledAfterDrop(r, dots, s, BackToSlash(path, BackToName(path, p)));
    } else {
      match r.get(path[..end], !s.AtLast())
      case NotReparse => SettledAfterCheck(r, dots, s);
      case NotFound => if s.AtLast() { SettledAtEnd(r, dots, s); }
      case Symlink(target, _) =>
        LinkAtBoundary(r, dots, s);
        SettledAfterLink(r, dots, s, target);
        TriesDoNotMatter(r, dots, s, target);
      case _ =>
    }
  }

  lemma SettledIsSane(r: Request, dots: bool, s: State)
    requires Settled(r, dots, s)
    ensures s.Sane()
  {
  }

  lemma TriesDoNotMatter(r: Request, dots: bool, s: State, target: Wide)
    requires s.Sane() && Settled(r, dots, Replace(r, s, LinkStart(s, target), target, s.tries))
    ensures s.tries > 1 ==> Settled(r, dots, Replace(r, s, LinkStart(s, target), target, s.tries - 1))
  {
  }

  /** When a resolution ends at a path that is not absolute, no directory prefix of that path is a reparse point (or
      ends in dots), and neither is the whole path if its last component was to be resolved. */
  lemma {:induction false} ResolvedIsClean(r: Request, dots: bool, s: State)
    requires Settled(r, dots, s)
    ensures s.Sane()
    ensures var outcome := Resolve(r, s);
            outcome.Resolved? && !outcome.absolute ==> FullyResolved(r, dots, outcome.path)
    decreases s.tries, |s.path|, |s.path| - s.pos, if s.last then 1 else 0
  {
    hide Step, Settled, FullyResolved;
    SettledIsSane(r, dots, s);
    StepKeepsSettled(r, dots, s);
    match Step(r, s)
    case Stop(_) =>
    case Go(t) => ResolvedIsClean(r, dots, t);
  }

  // ---------- what a step means ----------

  predicate IsName(name: Wide)
  {
    name != [] && BACKSLASH !in name
  }

  /** A dot disappears with the backslash before it. */
  lemma DotDisappears(r: Request, s: State, pre: Wide, rest: Wide)
    requires s.Sane() && s.path == pre + [BACKSLASH, DOT] + rest
    requires s.Start() == |pre| + 1 && s.End() == |pre| + 2 && !(s.AtLast() && !s.last)
    ensures Step(r, s) == Go(State(pre + rest, |pre|, s.tries, r.resolveLast))
  {
    var p := s.Start();
    assert s.path[p - 1] == BACKSLASH;
    assert BackToSlash(s.path, p) == |pre|;
    Dropped(s.path, |pre|, s.End());
    assert s.path[..|pre|] == pre && s.path[s.End()..] == rest;
  }

  predicate AreSlashes(run: Wide)
  {
    run != [] && forall k :: 0 <= k < |run| ==> run[k] == BACKSLASH
  }

  /** A dotdot takes the component before it away, with all the backslashes between them and the one before the
      component. */
  lemma DotDotDropsComponent(r: Request, s: State, pre: Wide, name: Wide, run: Wide, rest: Wide)
    requires s.Sane() && IsName(name) && AreSlashes(run)
    requires s.path == pre + [BACKSLASH] + name + run + [DOT, DOT] + rest
    requires s.Start() == |pre| + 1 + |name| + |run| && s.End() == s.Start() + 2 && !(s.AtLast() && !s.last)
    ensures Step(r, s) == Go(State(pre + rest, |pre|, s.tries, r.resolveLast))
  {
    var n := |pre|;
    PartsOfPath(s.path, pre, name, run, rest);
    BackOverRun(s.path, n + |name| + 1, s.Start());
    BackOverName(s.path, n, n + |name|);
    hide BackToSlash, BackToName, Rewritten, IsName, AreSlashes;
    Dropped(s.path, n, s.End());
  }

  lemma PartsOfPath(path: Wide, pre: Wide, name: Wide, run: Wide, rest: Wide)
    requires IsName(name) && AreSlashes(run) && path == pre + [BACKSLASH] + name + run + [DOT, DOT] + rest
    ensures var n, m := |pre|, |pre| + 1 + |name|; var p := m + |run|;
            && n + 1 < m < p && p + 2 <= |path| && path[n] == BACKSLASH && path[p] == path[p + 1] == DOT
            && (forall k :: n < k < m ==> path[k] != BACKSLASH) && (forall k :: m <= k < p ==> path[k] == BACKSLASH)
            && path[..n] == pre && path[p + 2..] == rest
  {
    var n, m := |pre|, |pre| + 1 + |name|;
    forall k | n < k < m ensures path[k] != BACKSLASH {
      assert path[k] == name[k - n - 1] && name[k - n - 1] in name;
    }
    forall k | m <= k < m + |run| ensures path[k] == BACKSLASH { assert path[k] == run[k - m]; }
  }

  /** Back over the run of backslashes from `m` to `p`. */
  lemma {:induction false} BackOverRun(path: Wide, m: nat, p: nat)
    requires 0 < m <= p <= |path| && path[m - 1] != BACKSLASH && forall k :: m <= k < p ==> path[k] == BACKSLASH
    ensures BackToName(path, p) == m - 1
  {
    if m < p { BackOverRun(path, m, p - 1); }
  }

  /** Back over the component from behind the backslash at `n` to `p`. */
  lemma {:induction false} BackOverName(path: Wide, n: nat, p: nat)
    requires n < p <= |path| && path[n] == BACKSLASH && forall k :: n < k < p ==> path[k] != BACKSLASH
    ensures BackToSlash(path, p) == n
  {
    if n + 1 < p { BackOverName(path, n, p - 1); }
  }

  lemma {:induction false} BackOverRoot(path: Wide, p: nat)
    requires p <= |path| && forall k :: 0 <= k < p ==> path[k] == BACKSLASH
    ensures BackToName(path, p) == 0
  {
    if p > 0 { BackOverRoot(path, p - 1); }
  }

  /** A dotdot at the root disappears with the backslashes before it, so that what follows takes the place of the
      root.  If nothing follows, nothing is left. */
  lemma DotDotTakesTheRoot(r: Request, s: State, run: Wide, rest: Wide)
    requires s.Sane() && AreSlashes(run) && s.path == run + [DOT, DOT] + rest
    requires s.Start() == |run| && s.End() == |run| + 2 && !(s.AtLast() && !s.last)
    ensures Step(r, s) == Go(State(rest, 0, s.tries, r.resolveLast))
  {
    var p := |run|;
    assert forall k :: 0 <= k < p ==> s.path[k] == run[k];
    BackOverRoot(s.path, p);
    assert s.path[p] == s.path[p + 1] == DOT && s.path[p + 2..] == rest;
    hide BackToName, Rewritten, AreSlashes;
    Dropped(s.path, 0, p + 2);
  }

  /** A link that is not absolute is replaced by its target if the new path fits: a device relative one takes everything
      before the remainder away with it, a relative one only its own name. */
  lemma LinkIsSubstituted(r: Request, s: State, pre: Wide, name: Wide, rest: Wide, target: Wide, relative: bool)
    requires s.Sane() && IsName(name) && name != [DOT] && name != [DOT, DOT] && NUL !in target
    requires s.path == pre + name + rest && s.Start() == |pre| && s.End() == |pre| + |name| && !(s.AtLast() && !s.last)
    requires r.get(pre + name, !s.AtLast()) == Symlink(target, relative)
    ensures var rooted := target != [] && target[0] == BACKSLASH;
            var kept := if rooted then [] else pre;
            Step(r, s) == if s.tries == 1 || 20 + 2 * (|kept + target + rest| + 1) > r.size then Stop(NotResolved)
                          else if rooted && !relative then Stop(Resolved(target + rest, true, s.tries - 1))
                          else Go(State(kept + target + rest, |kept|, s.tries - 1, r.resolveLast))
  {
    var end, kept := s.End(), if target != [] && target[0] == BACKSLASH then [] else pre;
    LinkParts(s.path, pre, name, rest, target);
    LinkStep(r, s, target, relative);
    RoomInBytes(r, |kept + target + rest|);
    hide BeforeNul, SkipSlashes, ComponentEnd, IsDot, IsDotDot, Step, Rewritten;
    assert kept == [] ==> kept + target + rest == target + rest;
  }

  lemma LinkParts(path: Wide, pre: Wide, name: Wide, rest: Wide, target: Wide)
    requires path == pre + name + rest && NUL !in path && NUL !in target && name != [DOT] && name != [DOT, DOT]
    ensures var p, end := |pre|, |pre| + |name|;
            && path[..end] == pre + name && !IsDot(path, p, end) && !IsDotDot(path, p, end)
            && Rewritten(path, 0, target, end) == target + rest
            && Rewritten(path, p, target, end) == pre + target + rest
  {
    var p, end := |pre|, |pre| + |name|;
    assert path[p..end] == name && path[end..] == rest && path[..p] == pre && path[..0] == [];
    assert [] + target + rest == target + rest;
    assert NUL !in pre + target + rest && NUL !in target + rest by {
      assert forall k :: 0 <= k < |path| ==> path[k] in path;
    }
  }

  lemma LinkStep(r: Request, s: State, target: Wide, relative: bool)
    requires s.Sane() && !IsDot(s.path, s.Start(), s.End()) && !IsDotDot(s.path, s.Start(), s.End())
    requires r.get(s.path[..s.End()], !s.AtLast()) == Symlink(target, relative) && !(s.AtLast() && !s.last)
    ensures var from := LinkStart(s, target);
            Step(r, s) == if s.tries == 1 || from + |target| + (|s.path| - s.End()) + 1 > r.capacity
                          then Stop(NotResolved)
                          else if !relative && target != [] && target[0] == BACKSLASH
                          then Stop(Resolved(Rewritten(s.path, from, target, s.End()), true, s.tries - 1))
                          else Go(Replace(r, s, from, target, s.tries - 1))
  {
    hide BeforeNul, SkipSlashes, ComponentEnd, IsDot, IsDotDot, BackToSlash, BackToName;
  }

  // ---------- why a resolution stops ----------

  /** The state in which it does. */
  function Last(r: Request, s: State): (t: State)
    requires s.Sane()
    ensures t.Sane()
    decreases s.tries, |s.path|, |s.path| - s.pos, if s.last then 1 else 0
  {
    if Step(r, s).Go? then Last(r, Step(r, s).state) else s
  }

  /** What the outcome says about the file system's answer for the path up to the component that is looked at last. */
  ghost predicate Explains(outcome: Outcome, r: Request, t: State)
    requires t.Sane()
  {
    var answer, rest := r.get(t.path[..t.End()], !t.AtLast()), t.path[t.End()..];
    if outcome.Resolved? && !outcome.absolute then
      outcome.path == t.path && outcome.triesLeft == t.tries && t.AtLast() && (t.last ==> answer.NotFound?)
    else
      && (t.AtLast() ==> t.last)
      && (outcome == NameNotFound <==> answer.NotFound? && !t.AtLast())
      && (outcome == PathNotFound <==> answer.Failed?)
      && (outcome == DataInvalid <==> answer.Other? && answer.size > r.size)
      && (outcome.OtherReparse? <==> answer.Other? && answer.size <= r.size)
      && (outcome.OtherReparse? ==>
            outcome == OtherReparse(answer.tag, answer.size, if answer.tag == 0xA000_0003 then |rest| else 0))
      && (outcome == NotResolved || outcome.Resolved? <==> answer.Symlink?)
      && (answer.Symlink? ==>
            var rooted := answer.target != [] && answer.target[0] == BACKSLASH;
            var kept := if rooted then [] else t.path[..t.Start()];
            (outcome == NotResolved <==>
              t.tries == 1 || 20 + 2 * (|kept + answer.target + rest| + 1) > r.size) &&
            (outcome.Resolved? ==> rooted && !answer.relative && outcome.path == BeforeNul(answer.target + rest)))
  }

  lemma StopIsExplained(r: Request, s: State)
    requires s.Sane() && Step(r, s).Stop?
    ensures Explains(Step(r, s).outcome, r, s)
  {
    hide BeforeNul, SkipSlashes, ComponentEnd, BackToSlash, BackToName, IsDot, IsDotDot;
    var rest := s.path[s.End()..];
    forall target: Wide ensures [] + target + rest == target + rest {}
  }

  /** Every outcome says what the file system answered where the resolution stops, which is behind prefixes that it
      all calls no reparse points. */
  lemma {:induction false} OutcomeIsExplained(r: Request, s: State)
    requires Settled(r, false, s)
    ensures var t := Last(r, s);
            Explains(Resolve(r, s), r, t) &&
            forall k :: k < t.End() && PrefixEnds(t.path, k) ==> r.get(t.path[..k], true).NotReparse?
    decreases s.tries, |s.path|, |s.path| - s.pos, if s.last then 1 else 0
  {
    SettledIsSane(r, false, s);
    StepKeepsSettled(r, false, s);
    hide Step, Settled, Explains;
    match Step(r, s)
    case Stop(_) =>
      StopIsExplained(r, s);
      CleanToEnd(r, false, s);
    case Go(t) => OutcomeIsExplained(r, t);
  }

  // ---------- the root ----------

  predicate Rooted(path: Wide)
  {
    path != [] && path[0] == BACKSLASH
  }

  /** The last component is a dot or dotdot and goes back to where the path starts, so that nothing is left of it. */
  predicate Sinks(s: State)
    requires s.Sane()
  {
    var p, end := s.Start(), s.End();
    && s.AtLast() && s.last
    && ((IsDot(s.path, p, end) && BackToSlash(s.path, p) == 0) ||
        (IsDotDot(s.path, p, end) && BackToSlash(s.path, BackToName(s.path, p)) == 0))
  }

  /** Whether that happens on the way. */
  predicate Sunk(r: Request, s: State)
    requires s.Sane()
    decreases s.tries, |s.path|, |s.path| - s.pos, if s.last then 1 else 0
  {
    Sinks(s) || (Step(r, s).Go? && Sunk(r, Step(r, s).state))
  }

  lemma DropKeepsRoot(path: Wide, from: nat, end: nat)
    requires NUL !in path && from < end <= |path| && Rooted(path)
    ensures Rooted(Rewritten(path, from, [], end)) <==> from > 0 || (end < |path| && path[end] == BACKSLASH)
    ensures from == 0 ==> Rewritten(path, from, [], end) == path[end..]
  {
    hide Rewritten;
    Dropped(path, from, end);
  }

  lemma LinkKeepsRoot(s: State, target: Wide)
    requires s.Sane() && Rooted(s.path)
    ensures Rooted(Rewritten(s.path, LinkStart(s, target), target, s.End()))
  {
    var from, end := LinkStart(s, target), s.End();
    var next := s.path[..from] + target + s.path[end..];
    assert Rooted(next);
    assert next[0] != NUL;
  }

  /** One step leaves a rooted path rooted unless it sinks; then what is left is nothing but the stream. */
  lemma StepKeepsRoot(r: Request, s: State)
    requires s.Sane() && Rooted(s.path)
    ensures match Step(r, s)
            case Go(t) =>
              && (Rooted(t.path) <==> !Sinks(s))
              && (Sinks(s) ==> t == State(s.path[s.End()..], 0, s.tries, r.resolveLast))
            case Stop(o) => !Sinks(s) && (o.Resolved? ==> Rooted(o.path))
  {
    hide Rewritten, SkipSlashes, ComponentEnd, BackToSlash, BackToName, Rooted;
    var p, end, path := s.Start(), s.End(), s.path;
    RootIsBefore(s);
    if IsDot(path, p, end) {
      DropKeepsRoot(path, BackToSlash(path, p), end);
    } else if IsDotDot(path, p, end) {
      DropKeepsRoot(path, BackToSlash(path, BackToName(path, p)), end);
    } else if r.get(path[..end], !s.AtLast()).Symlink? {
      LinkKeepsRoot(s, r.get(path[..end], !s.AtLast()).target);
    }
  }

  lemma RootIsBefore(s: State)
    requires s.Sane() && Rooted(s.path)
    ensures BackToSlash(s.path, s.Start()) < s.Start()
    ensures BackToSlash(s.path, BackToName(s.path, s.Start())) < s.Start()
  {
  }

  /** What has sunk is nothing but a stream: it is the outcome, if there is one. */
  lemma SunkStays(r: Request, t: State)
    requires t.Sane() && t.pos == 0 && (t.path == [] || t.path[0] == COLON) && !r.get([], false).Symlink?
    ensures Resolve(r, t).Resolved? ==> Resolve(r, t).path == t.path
    decreases t.last
  {
    assert t.path[..0] == [];
    assert t.Start() == t.End() == 0;
    if t.last && r.get([], false).NotReparse? {
      var u := State(t.path, 0, t.tries, false);
      assert Step(r, t) == Go(u);
      SunkStays(r, u);
    }
  }

  /** The exact condition: the outcome of a rooted path is rooted if no dot or dotdot takes the root away on the
      way.  If one does, and the file system does not call the empty path a link, nothing is left but the stream. */
  lemma {:induction false} RootedUnlessSunk(r: Request, s: State)
    requires s.Sane() && Rooted(s.path) && Resolve(r, s).Resolved?
    ensures !Sunk(r, s) ==> Rooted(Resolve(r, s).path)
    ensures Sunk(r, s) && !r.get([], false).Symlink? ==> Resolve(r, s).path == [] || Resolve(r, s).path[0] == COLON
    ensures !r.get([], false).Symlink? ==> (Rooted(Resolve(r, s).path) <==> !Sunk(r, s))
    decreases s.tries, |s.path|, |s.path| - s.pos, if s.last then 1 else 0
  {
    StepKeepsRoot(r, s);
    hide Step, Sinks;
    match Step(r, s)
    case Stop(_) =>
    case Go(t) =>
      if !Sinks(s) {
        RootedUnlessSunk(r, t);
      } else if !r.get([], false).Symlink? {
        SunkStays(r, t);
        SinksAtLast(s);
      }
  }

  lemma SinksAtLast(s: State)
    requires s.Sane() && Sinks(s)
    ensures s.End() == |s.path| || s.path[s.End()] == COLON
  {
  }

  const LETTER_A: WChar := 0x61
  const LETTER_B: WChar := 0x62

  /** A file system with one link: the file b in the directory a leads to dotdot, which is the root. */
  function LinkUp(): Request
  {
    Request((path, d) => if path == [BACKSLASH, LETTER_A, BACKSLASH, LETTER_B] then Symlink([DOT, DOT], true)
                         else NotReparse,
            true, 100)
  }

  lemma Component(s: State, p: nat, e: nat)
    requires s.Sane() && s.pos <= p <= e <= |s.path| && p < |s.path|
    requires forall k :: s.pos <= k < p ==> s.path[k] == BACKSLASH
    requires forall k :: p <= k < e ==> s.path[k] != BACKSLASH && s.path[k] != COLON
    requires s.path[p] != BACKSLASH && (e < |s.path| ==> s.path[e] == BACKSLASH)
    ensures s.Start() == p && s.End() == e && (s.AtLast() <==> e == |s.path|)
  {
  }

  /** What is left of a path that has sunk without a stream. */
  lemma EmptyIsOutcome(tries: nat)
    requires tries > 0
    ensures Resolve(LinkUp(), State([], 0, tries, true)) == Resolved([], false, tries)
  {
    var r, s, t := LinkUp(), State([], 0, tries, true), State([], 0, tries, false);
    assert s.Start() == s.End() == 0 && s.path[..0] == [];
    assert r.get([], false) == NotReparse;
    assert Step(r, s) == Go(t);
    assert Step(r, t) == Stop(Resolved([], false, tries));
  }

  /** A dotdot behind the first component, and a link to it, resolve to the empty path instead of the root. */
  lemma RootIsLost()
    ensures Resolve(LinkUp(), State([BACKSLASH, LETTER_A, BACKSLASH, LETTER_B], 3, MAX_TRIES, true)) ==
            Resolved([], false, 31)
    ensures Resolve(LinkUp(), State([BACKSLASH, LETTER_A, BACKSLASH, DOT, DOT], 0, MAX_TRIES, true)) ==
            Resolved([], false, 32)
  {
    var r, file, up := LinkUp(), [BACKSLASH, LETTER_A, BACKSLASH, LETTER_B], [BACKSLASH, LETTER_A, BACKSLASH, DOT, DOT];
    hide Resolve, Step;
    LinkToUp();
    UpIsEmpty(31);
    DirectoryIsPassed();
    UpIsEmpty(32);
    EmptyIsOutcome(31);
    EmptyIsOutcome(32);
    ResolveGoes(r, State(file, 3, 32, true), State(up, 3, 31, true));
    ResolveGoes(r, State(up, 3, 31, true), State([], 0, 31, true));
    ResolveGoes(r, State(up, 0, 32, true), State(up, 2, 32, true));
    ResolveGoes(r, State(up, 2, 32, true), State([], 0, 32, true));
  }

  lemma ResolveGoes(r: Request, s: State, t: State)
    requires s.Sane() && Step(r, s) == Go(t)
    ensures t.Sane() && Resolve(r, s) == Resolve(r, t)
  {
    hide Step;
  }

  lemma LinkToUp()
    ensures var s := State([BACKSLASH, LETTER_A, BACKSLASH, LETTER_B], 3, 32, true);
            Step(LinkUp(), s) == Go(State([BACKSLASH, LETTER_A, BACKSLASH, DOT, DOT], 3, 31, true))
  {
    var r, s := LinkUp(), State([BACKSLASH, LETTER_A, BACKSLASH, LETTER_B], 3, 32, true);
    Component(s, 3, 4);
    var pre: Wide := [BACKSLASH, LETTER_A, BACKSLASH];
    assert pre + [LETTER_B] + [] == s.path && pre + [LETTER_B] == s.path;
    assert pre + [DOT, DOT] + [] == [BACKSLASH, LETTER_A, BACKSLASH, DOT, DOT];
    hide Step;
    LinkIsSubstituted(r, s, pre, [LETTER_B], [], [DOT, DOT], true);
  }

  lemma UpIsEmpty(tries: nat)
    requires tries > 0
    ensures var up := [BACKSLASH, LETTER_A, BACKSLASH, DOT, DOT];
            && Step(LinkUp(), State(up, 3, tries, true)) == Go(State([], 0, tries, true))
            && Step(LinkUp(), State(up, 2, tries, true)) == Go(State([], 0, tries, true))
  {
    var r, up := LinkUp(), [BACKSLASH, LETTER_A, BACKSLASH, DOT, DOT];
    assert [] + [BACKSLASH] + [LETTER_A] + [BACKSLASH] + [DOT, DOT] + [] == up;
    hide Step;
    Component(State(up, 3, tries, true), 3, 5);
    Component(State(up, 2, tries, true), 3, 5);
    DotDotDropsComponent(r, State(up, 3, tries, true), [], [LETTER_A], [BACKSLASH], []);
    DotDotDropsComponent(r, State(up, 2, tries, true), [], [LETTER_A], [BACKSLASH], []);
  }

  lemma DirectoryIsPassed()
    ensures var up := [BACKSLASH, LETTER_A, BACKSLASH, DOT, DOT];
            Step(LinkUp(), State(up, 0, 32, true)) == Go(State(up, 2, 32, true))
  {
    var s := State([BACKSLASH, LETTER_A, BACKSLASH, DOT, DOT], 0, 32, true);
    Component(s, 1, 2);
    assert |s.path[..2]| == 2;
  }

  // ---------- the reparse data of the result ----------

  /** The 16-bit length fields for a path of `n` code units: substitute name, data, and the size that is reported. */
  function LengthFields(n: nat): (nat, nat, nat)
  {
    var name := (n % 0x1_0000 * 2) % 0x1_0000;
    var data := (PATH_OFFSET - DATA_OFFSET + name) % 0x1_0000;
    (name, data, DATA_OFFSET + data)
  }

  /** The fields say how long the path is exactly when the path is short enough for 16 bits. */
  lemma LengthFieldsAreExact(n: nat)
    ensures LengthFields(n) == (2 * n, 2 * n + 12, 2 * n + 20) <==> 2 * n + 12 < 0x1_0000
  {
  }

  /** So they always do when the output has at most 64K bytes. */
  lemma LengthFieldsFit(r: Request, s: State)
    requires s.Sane() && 20 + 2 * (|s.path| + 1) <= r.size <= 0x1_0000 && Resolve(r, s).Resolved?
    ensures var n := |Resolve(r, s).path|; LengthFields(n) == (2 * n, 2 * n + 12, 2 * n + 20)
  {
    hide Resolve;
    ResolvedFits(r, s);
    LengthFieldsAreExact(|Resolve(r, s).path|);
  }
}
