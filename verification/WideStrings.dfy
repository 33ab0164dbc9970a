/** NUL-terminated strings of 16-bit code units in buffers. */
module WideStrings {
  import opened Memory

  /** A string of the original: what comes before the first NUL. */
  function BeforeNul(s: Wide): (t: Wide)
    ensures |t| <= |s| && t == s[..|t|] && NUL !in t
    ensures |t| < |s| ==> s[|t|] == NUL
    ensures NUL !in s ==> t == s
  {
    if s == [] || s[0] == NUL then [] else [s[0]] + BeforeNul(s[1..])
  }

  function SkipSlashes(path: Wide, p: nat): (q: nat)
    requires p <= |path|
    ensures p <= q <= |path| && (q < |path| ==> path[q] != BACKSLASH)
    ensures forall k :: p <= k < q ==> path[k] == BACKSLASH
    decreases |path| - p
  {
    if p < |path| && path[p] == BACKSLASH then SkipSlashes(path, p + 1) else p
  }

  /** Where the component at `p` ends: at a backslash, at a colon, or with the path. */
  function ComponentEnd(path: Wide, p: nat): (q: nat)
    requires p <= |path|
    ensures p <= q <= |path| && (q < |path| ==> path[q] == BACKSLASH || path[q] == COLON)
    ensures forall k :: p <= k < q ==> path[k] != BACKSLASH && path[k] != COLON
    decreases |path| - p
  {
    if p < |path| && path[p] != BACKSLASH && path[p] != COLON then ComponentEnd(path, p + 1) else p
  }

  /** The buffer holds the string `path`. */
  ghost predicate Holds(buf: seq<WChar>, path: Wide)
  {
    NUL !in path && |path| < |buf| && buf[..|path|] == path && buf[|path|] == NUL
  }

  lemma HeldString(buf: seq<WChar>, path: Wide)
    requires Holds(buf, path)
    ensures BeforeNul(buf) == path
  {
    assert forall k :: 0 <= k < |path| ==> buf[k] == buf[..|path|][k] == path[k] && path[k] in path;
    var t := BeforeNul(buf);
    assert |t| >= |path|;
    assert |t| <= |path| by {
      assert forall k :: 0 <= k < |t| ==> buf[k] == t[k] && t[k] in t;
    }
  }

  lemma CutHolds(buf: seq<WChar>, s: Wide)
    requires |s| < |buf| && buf[..|s|] == s && buf[|s|] == NUL
    ensures Holds(buf, BeforeNul(s))
  {
    var t := BeforeNul(s);
    SliceOfTake(buf, |s|, 0, |t|);
    if |t| < |s| { assert buf[|t|] == buf[..|s|][|t|]; }
  }

  lemma StartsHolding(buf: array<WChar>, path: Wide)
    requires NUL !in path && |path| < buf.Length && buf[|path|] == NUL &&
             forall i :: 0 <= i < |path| ==> buf[i] == path[i]
    ensures Holds(buf[..], path)
  {
    assert buf[..|path|] == path;
  }

  /** The length of the string from `from` on. */
  method Length(buf: array<WChar>, from: nat, ghost path: Wide) returns (n: nat)
    requires Holds(buf[..], path) && from <= |path|
    ensures from + n == |path|
  {
    assert forall k :: 0 <= k < |path| ==> buf[k] == buf[..|path|][k] == path[k] && path[k] in path;
    n := 0;
    while buf[from + n] != NUL
      invariant from + n <= |path|
      decreases |path| - n
    {
      n := n + 1;
    }
  }
}
