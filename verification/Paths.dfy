/** Splitting a path in place, and putting it together again. */
module Paths {
  import opened Memory
  import opened WideStrings

  /** Where the last component before `n` starts: behind the last backslash, or 0. */
  function SuffixOf(s: Wide, n: nat): (q: nat)
    requires n <= |s|
    ensures q <= n && (q > 0 ==> s[q - 1] == BACKSLASH)
    ensures forall k :: q <= k < n ==> s[k] != BACKSLASH
  {
    if n == 0 then 0 else if s[n - 1] == BACKSLASH then n else SuffixOf(s, n - 1)
  }

  /** Where the run of backslashes before `n` starts. */
  function CutOf(s: Wide, n: nat): (q: nat)
    requires n <= |s|
    ensures q <= n && (q > 0 ==> s[q - 1] != BACKSLASH)
    ensures forall k :: q <= k < n ==> s[k] == BACKSLASH
  {
    if n == 0 then 0 else if s[n - 1] == BACKSLASH then CutOf(s, n - 1) else n
  }

  /** The parent of a path: what is before the last backslashes, or the root. */
  function ParentOf(s: Wide): (parent: Wide)
    ensures NUL !in s ==> NUL !in parent
  {
    if BACKSLASH !in s then s
    else if CutOf(s, SuffixOf(s, |s|)) == 0 then [BACKSLASH]
    else s[..CutOf(s, SuffixOf(s, |s|))]
  }

  /** The index of the last component, as it is reported for a reparse point. */
  function SuffixIndexOf(s: Wide): (index: nat)
    ensures index <= |s|
  {
    if BACKSLASH !in s then |s|
    else if CutOf(s, SuffixOf(s, |s|)) == 0 then 0
    else SuffixOf(s, |s|)
  }

  /** A path is its parent, some backslashes and its last component. */
  lemma SplitIsComplete(s: Wide)
    requires BACKSLASH in s
    ensures var suffix := SuffixOf(s, |s|); var cut := CutOf(s, suffix);
            && cut < suffix && BACKSLASH !in s[suffix..]
            && s == s[..cut] + seq(suffix - cut, _ => BACKSLASH) + s[suffix..]
            && (cut > 0 ==> s[cut - 1] != BACKSLASH)
  {
    hide *;
    SuffixIsBehind(s);
    CutIsBefore(s, SuffixOf(s, |s|));
    Glued(s, CutOf(s, SuffixOf(s, |s|)), SuffixOf(s, |s|));
  }

  lemma SuffixIsBehind(s: Wide)
    requires BACKSLASH in s
    ensures 0 < SuffixOf(s, |s|) && s[SuffixOf(s, |s|) - 1] == BACKSLASH && BACKSLASH !in s[SuffixOf(s, |s|)..]
  {
    hide *;
    var suffix := SuffixOf(s, |s|);
    var k :| 0 <= k < |s| && s[k] == BACKSLASH;
    assert suffix > 0;
  }

  lemma CutIsBefore(s: Wide, n: nat)
    requires 0 < n <= |s| && s[n - 1] == BACKSLASH
    ensures CutOf(s, n) < n
  {
    assert CutOf(s, n) == CutOf(s, n - 1);
  }

  lemma Glued(s: Wide, cut: nat, suffix: nat)
    requires cut <= suffix <= |s| && forall k :: cut <= k < suffix ==> s[k] == BACKSLASH
    ensures s == s[..cut] + seq(suffix - cut, _ => BACKSLASH) + s[suffix..]
  {
    assert s[cut..suffix] == seq(suffix - cut, _ => BACKSLASH);
    assert s == s[..cut] + s[cut..suffix] + s[suffix..];
  }

  /** The parent of a path of some prefix, backslashes and a name is the prefix, or the root if there is none; the index
      of the name is where it starts, or 0 if the parent is the root. */
  lemma ParentIs(s: Wide, prefix: Wide, run: Wide, name: Wide)
    requires s == prefix + run + name && run != [] && 0x5C !in name
    requires prefix == [] || prefix[|prefix| - 1] != 0x5C
    requires forall k :: 0 <= k < |run| ==> run[k] == 0x5C
    ensures ParentOf(s) == (if prefix == [] then [0x5C] else prefix)
    ensures SuffixIndexOf(s) == if prefix == [] then 0 else |prefix| + |run|
  {
    var cut, suffix := |prefix|, |prefix| + |run|;
    assert s[cut] == run[0] == BACKSLASH;
    forall k | cut <= k < suffix ensures s[k] == BACKSLASH { assert s[k] == run[k - cut]; }
    forall k | suffix <= k < |s| ensures s[k] != BACKSLASH { assert s[k] == name[k - suffix] && s[k] in name; }
    assert s[suffix - 1] == BACKSLASH && (cut > 0 ==> s[cut - 1] == prefix[cut - 1] != BACKSLASH);
    hide *;
    assert SuffixOf(s, |s|) == suffix;
    assert CutOf(s, suffix) == cut;
    SplitAt(s, cut, suffix);
    assert s[..cut] == prefix;
  }

  lemma SplitAt(s: Wide, cut: nat, suffix: nat)
    requires cut < suffix <= |s| && s[cut] == BACKSLASH && SuffixOf(s, |s|) == suffix && CutOf(s, suffix) == cut
    ensures ParentOf(s) == if cut == 0 then [BACKSLASH] else s[..cut]
    ensures SuffixIndexOf(s) == if cut == 0 then 0 else suffix
  {
  }

  /** A path without a backslash is its own parent. */
  lemma NoParent(s: Wide)
    requires 0x5C !in s
    ensures ParentOf(s) == s && SuffixIndexOf(s) == |s|
  {
  }

  // ---------- splitting ----------

  lemma NothingSplit(s: Wide)
    ensures SuffixOf(s, 0) == 0
  {
  }

  lemma BehindChar(s: Wide, p: nat)
    requires p < |s| && s[p] != BACKSLASH
    ensures SuffixOf(s, p + 1) == SuffixOf(s, p)
  {
  }

  /** Skips a run of backslashes. */
  method SkipRun(path: array<WChar>, from: nat, ghost s: Wide) returns (p: nat)
    requires from < |s| < path.Length && path[|s|] == NUL && forall k :: 0 <= k < |s| ==> path[k] == s[k] != NUL
    requires s[from] == BACKSLASH && (from == 0 || s[from - 1] != BACKSLASH)
    ensures from < p <= |s| && (p < |s| ==> s[p] != BACKSLASH)
    ensures SuffixOf(s, p) == p && CutOf(s, p) == from
  {
    assert CutOf(s, from) == from;
    p := from + 1;
    while path[p] == BACKSLASH
      invariant from < p <= |s| && s[p - 1] == BACKSLASH && CutOf(s, p) == from
      decreases |s| - p
    {
      p := p + 1;
    }
  }

  /** Cuts a path before its last component.  `remainIsRoot` says that the parent is the root, which is kept
      elsewhere. */
  method PathSuffix(path: array<WChar>, ghost s: Wide) returns (remainIsRoot: bool, suffix: nat)
    requires Holds(path[..], s)
    modifies path
    ensures BACKSLASH !in s ==> path[..] == old(path[..]) && !remainIsRoot && suffix == |s|
    ensures BACKSLASH in s ==>
              var cut := CutOf(s, SuffixOf(s, |s|));
              suffix == SuffixOf(s, |s|) && path[..] == old(path[..])[cut := NUL] && (remainIsRoot <==> cut == 0)
  {
    CharsHeld(path, s);
    NothingSplit(s);
    hide SuffixOf, CutOf;
    var p, remainEnd, start := 0, 0, 0;
    while path[p] != NUL
      invariant path[..] == old(path[..]) && |s| < path.Length && path[|s|] == NUL
      invariant forall k :: 0 <= k < |s| ==> path[k] == s[k] != NUL
      invariant p <= |s| && start == SuffixOf(s, p) && (start > 0 ==> remainEnd == CutOf(s, start))
      invariant p < |s| && s[p] == BACKSLASH ==> p == 0 || s[p - 1] != BACKSLASH
      decreases |s| - p
    {
      if path[p] == BACKSLASH {
        remainEnd := p;
        p := SkipRun(path, p, s);
        start := p;
      } else {
        BehindChar(s, p);
        p := p + 1;
      }
    }
    if 0 < start {
      remainIsRoot := remainEnd == 0 && path[0] == BACKSLASH;
      path[remainEnd] := NUL;
      suffix := start;
    } else {
      remainIsRoot := false;
      suffix := p;
    }
  }

  /** Puts back the backslashes before `suffix`. */
  method PathCombine(path: array<WChar>, suffix: nat)
    requires suffix <= path.Length
    modifies path
    ensures path[..] == Combined(old(path[..]), suffix)
  {
    var p := 0;
    while p < suffix
      invariant 0 <= p <= suffix
      invariant forall k :: 0 <= k < path.Length ==>
                  path[k] == if k < p && old(path[k]) == NUL then BACKSLASH else old(path[k])
    {
      if path[p] == NUL {
        path[p] := BACKSLASH;
      }
      p := p + 1;
    }
  }

  function Combined(buf: seq<WChar>, suffix: nat): (r: seq<WChar>)
    requires suffix <= |buf|
    ensures |r| == |buf|
  {
    seq(|buf|, k requires 0 <= k < |buf| => if k < suffix && buf[k] == NUL then BACKSLASH else buf[k])
  }

  /** Putting together undoes a split, as long as the rest of the path is as it was. */
  lemma CombineUndoes(buf: seq<WChar>, s: Wide, cut: nat, suffix: nat)
    requires Holds(buf, s) && cut < suffix <= |s| && s[cut] == BACKSLASH
    ensures Combined(buf[cut := NUL], suffix) == buf
  {
    forall k | 0 <= k < |buf| ensures Combined(buf[cut := NUL], suffix)[k] == buf[k] {
      if k < |s| { assert buf[k] == buf[..|s|][k] == s[k] && s[k] in s; }
    }
  }

  lemma CombineOfWhole(buf: seq<WChar>, s: Wide, suffix: nat)
    requires Holds(buf, s) && suffix <= |s|
    ensures Combined(buf, suffix) == buf
  {
    forall k | 0 <= k < |buf| ensures Combined(buf, suffix)[k] == buf[k] {
      if k < |s| { assert buf[k] == buf[..|s|][k] == s[k] && s[k] in s; }
    }
  }

  /** Cuts a path behind its first component; putting it together up to the remainder undoes that. */
  method PathPrefix(path: array<WChar>, ghost s: Wide) returns (prefixIsRoot: bool, remain: nat)
    requires Holds(path[..], s)
    modifies path
    ensures remain <= |s| && Combined(path[..], remain) == old(path[..])
    ensures BACKSLASH !in s ==> remain == |s| && !prefixIsRoot
    ensures BACKSLASH in s ==>
            exists cut: nat :: FirstRun(s, cut, remain) && Holds(path[..], s[..cut]) && (prefixIsRoot <==> cut == 0)
  {
    CharsHeld(path, s);
    prefixIsRoot := false;
    var p := 0;
    while path[p] != NUL
      invariant p <= |s| && path[..] == old(path[..]) && !prefixIsRoot
      invariant forall k :: 0 <= k < p ==> s[k] != BACKSLASH
      decreases |s| - p
    {
      if path[p] == BACKSLASH {
        ghost var cut := p;
        prefixIsRoot := p == 0;
        path[p] := NUL;
        p := p + 1;
        while path[p] == BACKSLASH
          invariant cut < p <= |s| && path[..] == old(path[..])[cut := NUL]
          invariant forall k :: cut <= k < p ==> s[k] == BACKSLASH
          decreases |s| - p
        {
          p := p + 1;
        }
        CombineUndoes(old(path[..]), s, cut, p);
        SliceOfTake(old(path[..]), |s|, 0, cut);
        assert path[..cut] == old(path[..])[..cut];
        assert FirstRun(s, cut, p);
        return prefixIsRoot, p;
      }
      p := p + 1;
    }
    CombineOfWhole(path[..], s, p);
    remain := p;
  }

  ghost predicate FirstRun(s: Wide, cut: nat, remain: nat)
  {
    && cut < remain <= |s| && (forall k :: 0 <= k < cut ==> s[k] != BACKSLASH)
    && (forall k :: cut <= k < remain ==> s[k] == BACKSLASH) && (remain < |s| ==> s[remain] != BACKSLASH)
  }

  /** There is only one first run of backslashes, behind characters that are none. */
  lemma FirstRunIs(s: Wide, prefix: Wide, run: Wide, rest: Wide, cut: nat, remain: nat)
    requires s == prefix + run + rest && run != [] && 0x5C !in prefix && (rest == [] || rest[0] != 0x5C)
    requires forall k :: 0 <= k < |run| ==> run[k] == 0x5C
    ensures FirstRun(s, cut, remain) <==> cut == |prefix| && remain == |prefix| + |run|
  {
    var m, n := |prefix|, |prefix| + |run|;
    forall k | 0 <= k < m ensures s[k] != BACKSLASH { assert s[k] == prefix[k] && prefix[k] in prefix; }
    forall k | m <= k < n ensures s[k] == BACKSLASH { assert s[k] == run[k - m]; }
    assert n < |s| ==> s[n] == rest[0];
    if FirstRun(s, cut, remain) {
      assert s[cut] == BACKSLASH == s[m] && s[n - 1] == BACKSLASH;
      assert cut == m;
      assert remain > m ==> s[remain - 1] == BACKSLASH;
    }
  }

  /** The index of the last component of a name, found by splitting the name and putting it together again. */
  method SuffixIndex(name: array<WChar>, ghost s: Wide) returns (index: nat)
    requires Holds(name[..], s)
    modifies name
    ensures name[..] == old(name[..]) && index == SuffixIndexOf(s)
  {
    ghost var was := name[..];
    var remainIsRoot, suffix := PathSuffix(name, s);
    index := if remainIsRoot then 0 else suffix;
    UndoSplit(was, name[..], s, suffix);
    PathCombine(name, suffix);
  }

  lemma UndoSplit(was: seq<WChar>, split: seq<WChar>, s: Wide, suffix: nat)
    requires Holds(was, s)
    requires BACKSLASH !in s ==> split == was && suffix == |s|
    requires BACKSLASH in s ==> suffix == SuffixOf(s, |s|) && split == was[CutOf(s, SuffixOf(s, |s|)) := NUL]
    ensures suffix <= |s| && |split| == |was| && Combined(split, suffix) == was
  {
    if BACKSLASH in s {
      SplitIsComplete(s);
      CombineUndoes(was, s, CutOf(s, suffix), suffix);
    } else {
      CombineOfWhole(was, s, suffix);
    }
  }

  lemma CharsHeld(path: array<WChar>, s: Wide)
    requires Holds(path[..], s)
    ensures forall k :: 0 <= k < |s| ==> path[k] == s[k] != NUL
  {
    assert forall k :: 0 <= k < |s| ==> path[k] == path[..|s|][k] == s[k] && s[k] in s;
  }
}
