/** The quicksort of the directory index, in place and with an explicit stack. */
module DirectorySort {
  import opened Memory
  import opened DirectoryIndex

  // ---------- permutations of a segment ----------

  /** `t` is `s` with the positions from `l` to `r` permuted. */
  ghost predicate PermutedWithin(s: seq<nat>, t: seq<nat>, l: int, r: int)
  {
    && |s| == |t|
    && (forall k :: 0 <= k < |s| && (k < l || r < k) ==> s[k] == t[k])
    && multiset(s) == multiset(t)
  }

  function Swapped(s: seq<nat>, i: nat, j: nat): seq<nat>
    requires i < |s| && j < |s|
  {
    s[i := s[j]][j := s[i]]
  }

  lemma SwapPermutes(s: seq<nat>, t: seq<nat>, i: nat, j: nat, l: int, r: int)
    requires PermutedWithin(s, t, l, r) && l <= i <= r < |s| && l <= j <= r
    ensures PermutedWithin(s, Swapped(t, i, j), l, r)
  {
  }

  lemma PartsPermuted(before: seq<nat>, s: seq<nat>, after: seq<nat>, t: seq<nat>)
    requires multiset(before + s + after) == multiset(before + t + after)
    ensures multiset(s) == multiset(t)
  {
    forall x ensures multiset(s)[x] == multiset(t)[x] {
      assert multiset(before + s + after)[x] == multiset(before)[x] + multiset(s)[x] + multiset(after)[x];
      assert multiset(before + t + after)[x] == multiset(before)[x] + multiset(t)[x] + multiset(after)[x];
    }
  }

  /** A position of the segment holds a value the segment held before. */
  lemma ValueComesFrom(s: seq<nat>, t: seq<nat>, l: nat, r: nat, b: nat) returns (c: nat)
    requires PermutedWithin(s, t, l, r) && l <= b <= r < |s|
    ensures l <= c <= r && t[b] == s[c]
  {
    assert s[..l] == t[..l] && s[r + 1..] == t[r + 1..];
    PartsPermuted(s[..l], s[l..r + 1], s[r + 1..], t[l..r + 1]) by {
      assert s == s[..l] + s[l..r + 1] + s[r + 1..];
      assert t == t[..l] + t[l..r + 1] + t[r + 1..];
    }
    assert t[b] == t[l..r + 1][b - l];
    assert t[b] in multiset(t[l..r + 1]);
    assert t[b] in s[l..r + 1];
    var d :| 0 <= d < |s[l..r + 1]| && s[l..r + 1][d] == t[b];
    c := l + d;
  }

  ghost predicate RecordsWithin(rec: seq<Byte>, s: seq<nat>, l: int, r: int)
  {
    forall k :: 0 <= k < |s| && l <= k <= r ==> IsRecord(rec, s[k])
  }

  lemma RecordsStay(rec: seq<Byte>, s: seq<nat>, t: seq<nat>, l: nat, r: nat, lo: nat, hi: nat)
    requires lo <= l && r <= hi < |s|
    requires PermutedWithin(s, t, l, r) && RecordsWithin(rec, s, lo, hi)
    ensures RecordsWithin(rec, t, lo, hi)
  {
    forall k | lo <= k <= hi ensures IsRecord(rec, t[k]) {
      if l <= k <= r {
        var c := ValueComesFrom(s, t, l, r, k);
      } else {
        assert s[k] == t[k];
      }
    }
  }

  lemma SwappedWithin(rec: seq<Byte>, s: seq<nat>, t: seq<nat>, i: nat, j: nat, l: nat, r: nat)
    requires l <= i <= r < |s| && l <= j <= r
    requires PermutedWithin(s, t, l, r) && RecordsWithin(rec, s, l, r)
    ensures PermutedWithin(s, s, l, r)
    ensures PermutedWithin(s, Swapped(t, i, j), l, r)
    ensures RecordsWithin(rec, t, l, r) && RecordsWithin(rec, Swapped(t, i, j), l, r)
  {
    SwapPermutes(s, t, i, j, l, r);
    RecordsStay(rec, s, t, l, r, l, r);
    RecordsStay(rec, s, Swapped(t, i, j), l, r, l, r);
  }

  // ---------- swaps ----------

  method Exch(mem: array<Byte>, base: nat, i: nat, j: nat)
    requires base <= mem.Length && i < (mem.Length - base) / 4 && j < (mem.Length - base) / 4
    modifies mem
    ensures mem[..base] == old(mem[..base])
    ensures Entries(mem, base) == Swapped(old(Entries(mem, base)), i, j)
  {
    var x := GetEntry(mem, base, i);
    var y := GetEntry(mem, base, j);
    SetEntry(mem, base, i, y);
    SetEntry(mem, base, j, x);
  }

  method CompExch(mem: array<Byte>, base: nat, i: nat, j: nat)
    requires base <= mem.Length && i <= j < (mem.Length - base) / 4
    requires IsRecord(mem[..base], Entries(mem, base)[i]) && IsRecord(mem[..base], Entries(mem, base)[j])
    modifies mem
    ensures mem[..base] == old(mem[..base])
    ensures Le(mem[..base], Entries(mem, base)[i], Entries(mem, base)[j])
    ensures var s := old(Entries(mem, base));
            Entries(mem, base) == if Le(mem[..base], s[i], s[j]) then s else Swapped(s, i, j)
  {
    var a := GetEntry(mem, base, i);
    var b := GetEntry(mem, base, j);
    LeTotal(mem[..base], a, b);
    var less := Less(mem, base, b, a);
    if less {
      Exch(mem, base, i, j);
    }
  }

  /** Puts the median of the left, middle and right entries second to last. */
  method MedianOfThree(mem: array<Byte>, base: nat, l: nat, r: nat)
    requires base <= mem.Length && l < r < (mem.Length - base) / 4
    requires RecordsWithin(mem[..base], Entries(mem, base), l, r)
    modifies mem
    ensures mem[..base] == old(mem[..base])
    ensures PermutedWithin(old(Entries(mem, base)), Entries(mem, base), l, r)
    ensures RecordsWithin(mem[..base], Entries(mem, base), l, r)
    ensures Le(mem[..base], Entries(mem, base)[l], Entries(mem, base)[r - 1])
    ensures Le(mem[..base], Entries(mem, base)[r - 1], Entries(mem, base)[r])
  {
    hide *;
    ghost var rec, s0 := mem[..base], Entries(mem, base);
    Exch(mem, base, (l + r) / 2, r - 1);
    ghost var s1 := Entries(mem, base);
    SwappedWithin(rec, s0, s0, (l + r) / 2, r - 1, l, r);
    CompExch(mem, base, l, r - 1);
    ghost var s2 := Entries(mem, base);
    SwappedWithin(rec, s0, s1, l, r - 1, l, r);
    CompExch(mem, base, l, r);
    ghost var s3 := Entries(mem, base);
    SwappedWithin(rec, s0, s2, l, r, l, r);
    CompExch(mem, base, r - 1, r);
    SwappedWithin(rec, s0, s3, r - 1, r, l, r);
    MedianIsBetween(rec, s2, s3, Entries(mem, base), l, r);
  }

  /** Three exchanges that compare put three entries in order. */
  lemma MedianIsBetween(rec: seq<Byte>, s2: seq<nat>, s3: seq<nat>, s4: seq<nat>, l: nat, r: nat)
    requires l < r < |s2|
    requires Le(rec, s2[l], s2[r - 1])
    requires s3 == if Le(rec, s2[l], s2[r]) then s2 else Swapped(s2, l, r)
    requires s4 == if Le(rec, s3[r - 1], s3[r]) then s3 else Swapped(s3, r - 1, r)
    ensures Le(rec, s4[l], s4[r - 1]) && Le(rec, s4[r - 1], s4[r])
  {
    hide Le;
    LeTotal(rec, s2[l], s2[r]);
    LeTotal(rec, s3[r - 1], s3[r]);
    LeTotal(rec, s4[l], s4[l]);
    if l < r - 1 && !Le(rec, s2[l], s2[r]) {
      LeTransitive(rec, s2[r], s2[l], s2[r - 1]);
    }
  }

  lemma NothingPermuted(s: seq<nat>, l: int, r: int)
    ensures PermutedWithin(s, s, l, r)
  {
  }

  /** The scan up from `from` to the first entry that is not less than `v`. */
  method ScanUp(mem: array<Byte>, base: nat, from: nat, r: nat, v: nat) returns (i: nat)
    requires base <= mem.Length && from <= r < (mem.Length - base) / 4
    requires RecordsWithin(mem[..base], Entries(mem, base), from, r) && Entries(mem, base)[r] == v
    ensures from <= i <= r && Le(mem[..base], v, Entries(mem, base)[i])
    ensures forall k :: from <= k < i ==> Le(mem[..base], Entries(mem, base)[k], v)
  {
    hide Le, IsRecord, Entries;
    ghost var rec, s := mem[..base], Entries(mem, base);
    LeTotal(rec, v, v);
    i := from;
    var x := GetEntry(mem, base, i);
    var less := Less(mem, base, x, v);
    while less
      invariant from <= i <= r && x == s[i] && (less <==> !Le(rec, v, x))
      invariant forall k :: from <= k < i ==> Le(rec, s[k], v)
      decreases r - i
    {
      LeTotal(rec, x, v);
      i := i + 1;
      x := GetEntry(mem, base, i);
      less := Less(mem, base, x, v);
    }
  }

  /** The scan down from `from` to the first entry that is not greater than `v`, or to `l`. */
  method ScanDown(mem: array<Byte>, base: nat, l: nat, from: nat, v: nat) returns (j: nat)
    requires base <= mem.Length && l <= from < (mem.Length - base) / 4
    requires RecordsWithin(mem[..base], Entries(mem, base), l, from) && IsRecord(mem[..base], v)
    ensures l <= j <= from && (j == l || Le(mem[..base], Entries(mem, base)[j], v))
    ensures forall k :: j < k <= from ==> Le(mem[..base], v, Entries(mem, base)[k])
    ensures Le(mem[..base], v, Entries(mem, base)[j]) || Le(mem[..base], Entries(mem, base)[j], v)
  {
    hide Le, IsRecord, Entries;
    ghost var rec, s := mem[..base], Entries(mem, base);
    j := from;
    var x := GetEntry(mem, base, j);
    var less := Less(mem, base, v, x);
    while less
      invariant l <= j <= from && x == s[j] && (less <==> !Le(rec, x, v))
      invariant forall k :: j < k <= from ==> Le(rec, v, s[k])
      decreases j
    {
      LeTotal(rec, x, v);
      if j == l {
        break;
      }
      j := j - 1;
      x := GetEntry(mem, base, j);
      less := Less(mem, base, v, x);
    }
    LeTotal(rec, x, v);
  }

  /** Sedgewick's partition about the last entry: its final place is `i`. */
  method Partition(mem: array<Byte>, base: nat, l: nat, r: nat) returns (i: int)
    requires base <= mem.Length && l < r < (mem.Length - base) / 4
    requires RecordsWithin(mem[..base], Entries(mem, base), l, r)
    modifies mem
    ensures mem[..base] == old(mem[..base])
    ensures PermutedWithin(old(Entries(mem, base)), Entries(mem, base), l, r)
    ensures RecordsWithin(mem[..base], Entries(mem, base), l, r)
    ensures l <= i <= r
    ensures Entries(mem, base)[i] == old(Entries(mem, base))[r]
    ensures forall k :: l <= k <= i ==> Le(mem[..base], Entries(mem, base)[k], Entries(mem, base)[i])
    ensures forall k :: i <= k <= r ==> Le(mem[..base], Entries(mem, base)[i], Entries(mem, base)[k])
  {
    hide Le, IsRecord, Entries, PermutedWithin;
    ghost var rec, s0 := mem[..base], Entries(mem, base);
    var j := r;
    i := l - 1;
    var v := GetEntry(mem, base, r);
    LeTotal(rec, v, v);
    NothingPermuted(s0, l, r);
    while true
      invariant l - 1 <= i < j <= r && (i < l ==> j == r)
      invariant mem[..base] == rec && PermutedWithin(s0, Entries(mem, base), l, r)
      invariant RecordsWithin(rec, Entries(mem, base), l, r)
      invariant Entries(mem, base)[r] == v == s0[r]
      invariant forall k :: l <= k <= i ==> Le(rec, Entries(mem, base)[k], v)
      invariant forall k :: j <= k <= r ==> Le(rec, v, Entries(mem, base)[k])
      decreases j - i
    {
      ghost var s := Entries(mem, base);
      i := ScanUp(mem, base, i + 1, r, v);
      j := ScanDown(mem, base, l, j - 1, v);
      if i >= j {
        break;
      }
      SwappedWithin(rec, s0, s, i, j, l, r);
      Exch(mem, base, i, j);
    }
    LeTotal(rec, Entries(mem, base)[i], v);
    SwappedWithin(rec, s0, Entries(mem, base), i, r, l, r);
    Exch(mem, base, i, r);
  }

  // ---------- pending segments ----------

  type Segment = (int, int)

  /** Two positions that lie in one pending segment need not be in order yet. */
  ghost predicate Together(segs: seq<Segment>, a: int, b: int)
  {
    exists k :: 0 <= k < |segs| && segs[k].0 <= a && b <= segs[k].1
  }

  ghost predicate OrderedBetween(rec: seq<Byte>, s: seq<nat>, segs: seq<Segment>, lo: int, hi: int)
  {
    forall a, b :: 0 <= a < b < |s| && lo <= a && b <= hi && !Together(segs, a, b) ==> Le(rec, s[a], s[b])
  }

  ghost predicate Apart(p: Segment, q: Segment)
  {
    p.1 < q.0 || q.1 < p.0
  }

  /** The pending segments lie between `lo` and `hi` and do not meet. */
  ghost predicate Layout(segs: seq<Segment>, lo: int, hi: int)
  {
    && (forall k :: 0 <= k < |segs| ==> lo <= segs[k].0 && segs[k].1 <= hi)
    && (forall j, k :: 0 <= j < k < |segs| ==> Apart(segs[j], segs[k]))
  }

  function Size(p: Segment): nat
  {
    if p.0 <= p.1 then p.1 - p.0 + 1 else 0
  }

  function TotalSize(segs: seq<Segment>): nat
  {
    if segs == [] then 0 else TotalSize(segs[..|segs| - 1]) + Size(segs[|segs| - 1])
  }

  function Pow2(k: nat): nat
  {
    if k == 0 then 1 else 2 * Pow2(k - 1)
  }

  /** The k-th pushed segment is at most the 2^k-th part of the whole. */
  ghost predicate Halving(segs: seq<Segment>, n: nat)
  {
    forall k :: 0 <= k < |segs| ==> Size(segs[k]) * Pow2(k) <= n
  }

  lemma {:induction false} Pow2Grows(j: nat, k: nat)
    requires j <= k
    ensures 1 <= Pow2(j) <= Pow2(k)
    decreases k
  {
    if j < k { Pow2Grows(j, k - 1); } else if j > 0 { Pow2Grows(j - 1, k - 1); }
  }

  /** A segment of four or more entries is never below more than 29 others. */
  lemma StackStaysShallow(size: nat, k: nat, n: nat)
    requires size >= 4 && size * Pow2(k) <= n <= INT_MAX
    ensures k < 29
  {
    if k >= 29 {
      Pow2Grows(29, k);
      Pow2At29();
      MulAtLeast(size, Pow2(k), 4, 0x2000_0000);
    }
  }

  lemma Pow2At29()
    ensures Pow2(29) == 0x2000_0000
  {
    assert Pow2(10) == 0x400;
    assert Pow2(20) == 0x10_0000;
  }

  lemma MulAtLeast(x: nat, y: nat, a: nat, b: nat)
    requires x >= a && y >= b
    ensures x * y >= a * b
  {
    assert x * y >= a * y >= a * b;
  }

  /** Pushing the larger part of a split and going on with the smaller one keeps the halving. */
  lemma SplitHalves(segs: seq<Segment>, p: Segment, larger: Segment, smaller: Segment, n: nat)
    requires Halving(segs + [p], n)
    requires Size(smaller) <= Size(larger) && Size(smaller) + Size(larger) < Size(p)
    ensures Halving(segs + [larger] + [smaller], n)
  {
    var k := |segs|;
    var next := segs + [larger] + [smaller];
    assert (segs + [p])[k] == p;
    assert next[k] == larger && next[k + 1] == smaller;
    MulAtLeast(Size(p), Pow2(k), Size(larger), Pow2(k));
    MulAtLeast(Size(p), Pow2(k), 2 * Size(smaller), Pow2(k));
    assert Size(smaller) * Pow2(k + 1) == 2 * Size(smaller) * Pow2(k) by {
      assert Pow2(k + 1) == 2 * Pow2(k);
    }
    forall j | 0 <= j < |next| ensures Size(next[j]) * Pow2(j) <= n {
      if j < k { assert next[j] == (segs + [p])[j]; }
    }
  }

  lemma TogetherAppend(segs: seq<Segment>, p: Segment, a: int, b: int)
    ensures Together(segs + [p], a, b) <==> Together(segs, a, b) || (p.0 <= a && b <= p.1)
  {
    var all := segs + [p];
    assert all[|segs|] == p;
    if Together(segs, a, b) {
      var k :| 0 <= k < |segs| && segs[k].0 <= a && b <= segs[k].1;
      assert all[k] == segs[k];
    }
  }

  lemma LayoutAppend(segs: seq<Segment>, p: Segment, lo: int, hi: int)
    ensures Layout(segs + [p], lo, hi) <==>
            Layout(segs, lo, hi) && lo <= p.0 && p.1 <= hi && forall k :: 0 <= k < |segs| ==> Apart(segs[k], p)
  {
    var all := segs + [p];
    assert all[|segs|] == p && all[..|segs|] == segs;
    if Layout(all, lo, hi) {
      forall j, k | 0 <= j < k < |segs| ensures Apart(segs[j], segs[k]) { assert Apart(all[j], all[k]); }
      forall k | 0 <= k < |segs| ensures Apart(segs[k], p) { assert Apart(all[k], all[|segs|]); }
      forall k | 0 <= k < |segs| ensures lo <= segs[k].0 && segs[k].1 <= hi { assert all[k] == segs[k]; }
    }
  }

  /** Two positions of which one lies in `p` are not together in segments that lie apart from `p`. */
  lemma NotTogether(segs: seq<Segment>, p: Segment, a: int, b: int, x: int)
    requires forall k :: 0 <= k < |segs| ==> Apart(segs[k], p)
    requires a <= x <= b && p.0 <= x <= p.1
    ensures !Together(segs, a, b)
  {
    forall k | 0 <= k < |segs| ensures !(segs[k].0 <= a && b <= segs[k].1) {
      assert Apart(segs[k], p);
    }
  }

  /** Permuting one pending segment keeps everything else in order. */
  lemma PermuteOrdered(rec: seq<Byte>, s: seq<nat>, t: seq<nat>, segs: seq<Segment>, p: Segment, lo: nat, hi: nat)
    requires Layout(segs + [p], lo, hi) && hi < |s| && p.0 <= p.1
    requires OrderedBetween(rec, s, segs + [p], lo, hi)
    requires PermutedWithin(s, t, p.0, p.1)
    ensures OrderedBetween(rec, t, segs + [p], lo, hi)
  {
    hide Le;
    LayoutAppend(segs, p, lo, hi);
    var all := segs + [p];
    forall a, b | 0 <= a < b < |t| && lo <= a && b <= hi && !Together(all, a, b)
      ensures Le(rec, t[a], t[b])
    {
      TogetherAppend(segs, p, a, b);
      var a', b' := a, b;
      if p.0 <= a <= p.1 { a' := ValueComesFrom(s, t, p.0, p.1, a); }
      if p.0 <= b <= p.1 { b' := ValueComesFrom(s, t, p.0, p.1, b); }
      assert t[a] == s[a'] && t[b] == s[b'] && a' < b';
      TogetherAppend(segs, p, a', b');
      if p.0 <= a <= p.1 {
        NotTogether(segs, p, a', b', a');
      } else if p.0 <= b <= p.1 {
        NotTogether(segs, p, a', b', b');
      }
    }
  }

  /** Splitting a pending segment about an entry in its final place. */
  lemma SplitOrdered(rec: seq<Byte>, s: seq<nat>, segs: seq<Segment>, p: Segment, i: int, q: Segment, q': Segment,
                     lo: nat, hi: nat)
    requires Layout(segs + [p], lo, hi) && hi < |s| && lo <= p.0 <= i <= p.1 <= hi
    requires OrderedBetween(rec, s, segs + [p], lo, hi)
    requires forall k :: p.0 <= k <= i ==> Le(rec, s[k], s[i])
    requires forall k :: i <= k <= p.1 ==> Le(rec, s[i], s[k])
    requires (q, q') == ((p.0, i - 1), (i + 1, p.1)) || (q', q) == ((p.0, i - 1), (i + 1, p.1))
    ensures OrderedBetween(rec, s, segs + [q] + [q'], lo, hi)
    ensures Layout(segs + [q] + [q'], lo, hi)
  {
    hide Le;
    LayoutAppend(segs, p, lo, hi);
    LayoutAppend(segs, q, lo, hi);
    LayoutAppend(segs + [q], q', lo, hi);
    var next := segs + [q];
    forall k | 0 <= k < |next| ensures Apart(next[k], q') {
      if k < |segs| { assert next[k] == segs[k]; }
    }
    forall a, b | 0 <= a < b < |s| && lo <= a && b <= hi && !Together(next + [q'], a, b)
      ensures Le(rec, s[a], s[b])
    {
      TogetherAppend(segs, p, a, b);
      TogetherAppend(segs, q, a, b);
      TogetherAppend(next, q', a, b);
      if p.0 <= a && b <= p.1 {
        LeTransitive(rec, s[a], s[i], s[b]);
      }
    }
  }

  /** A pending segment whose entries are in order can be dropped. */
  lemma DropOrdered(rec: seq<Byte>, s: seq<nat>, segs: seq<Segment>, p: Segment, lo: nat, hi: int)
    requires Layout(segs + [p], lo, hi) && hi < |s|
    requires OrderedBetween(rec, s, segs + [p], lo, hi)
    requires forall a, b :: 0 <= p.0 <= a < b <= p.1 < |s| ==> Le(rec, s[a], s[b])
    ensures OrderedBetween(rec, s, segs, lo, hi)
    ensures Layout(segs, lo, hi)
  {
    hide Le;
    LayoutAppend(segs, p, lo, hi);
    forall a, b | 0 <= a < b < |s| && lo <= a && b <= hi && !Together(segs, a, b)
      ensures Le(rec, s[a], s[b])
    {
      TogetherAppend(segs, p, a, b);
    }
  }

  // ---------- the sort ----------

  ghost predicate SortedWithin(rec: seq<Byte>, s: seq<nat>, l: int, r: int)
  {
    forall a, b :: 0 <= a < b < |s| && l <= a && b <= r ==> Le(rec, s[a], s[b])
  }

  /** The pairs on the stack. */
  ghost predicate Stacked(stack: seq<int>, segs: seq<Segment>)
  {
    2 * |segs| <= |stack| && forall k :: 0 <= k < |segs| ==> stack[2 * k] == segs[k].0 && stack[2 * k + 1] == segs[k].1
  }

  lemma NothingStacked(stack: seq<int>)
    ensures Stacked(stack, [])
  {
  }

  method Push2(stack: array<int>, stackpos: nat, a: int, b: int, ghost segs: seq<Segment>) returns (stackpos': nat)
    requires Stacked(stack[..], segs) && stackpos == 2 * |segs| && stackpos + 2 <= stack.Length
    modifies stack
    ensures Stacked(stack[..], segs + [(a, b)]) && stackpos' == stackpos + 2
  {
    stack[stackpos], stack[stackpos + 1] := a, b;
    return stackpos + 2;
  }

  method Pop2(stack: array<int>, stackpos: nat, ghost segs: seq<Segment>) returns (a: int, b: int, stackpos': nat)
    requires Stacked(stack[..], segs) && stackpos == 2 * |segs| && segs != []
    ensures stackpos' == stackpos - 2 && Stacked(stack[..], segs[..|segs| - 1])
    ensures segs == segs[..|segs| - 1] + [(a, b)]
  {
    stackpos' := stackpos - 2;
    assert segs[|segs| - 1] == (stack[2 * (|segs| - 1)], stack[2 * (|segs| - 1) + 1]);
    a, b := stack[stackpos'], stack[stackpos' + 1];
  }

  lemma OrderedAtStart(rec: seq<Byte>, s: seq<nat>, l: int, r: int)
    ensures OrderedBetween(rec, s, [(l, r)], l, r)
  {
    forall a, b | 0 <= a < b < |s| && l <= a && b <= r ensures Together([(l, r)], a, b) {
      assert [(l, r)][0] == (l, r);
    }
  }

  lemma PermutedTwice(s: seq<nat>, t: seq<nat>, u: seq<nat>, l: int, r: int, lo: int, hi: int)
    requires PermutedWithin(s, t, lo, hi) && PermutedWithin(t, u, l, r) && lo <= l && r <= hi
    ensures PermutedWithin(s, u, lo, hi)
  {
  }

  lemma {:induction false} TotalSizeAppend(segs: seq<Segment>, p: Segment)
    ensures TotalSize(segs + [p]) == TotalSize(segs) + Size(p)
  {
    assert (segs + [p])[..|segs|] == segs;
  }

  /** What holds between two steps: `segs` are the pending segments, the current one being the last. */
  ghost predicate Sorting(rec: seq<Byte>, s0: seq<nat>, s: seq<nat>, segs: seq<Segment>, lo: nat, hi: int)
  {
    && hi < |s| <= INT_MAX
    && PermutedWithin(s0, s, lo, hi)
    && RecordsWithin(rec, s0, lo, hi)
    && Layout(segs, lo, hi)
    && OrderedBetween(rec, s, segs, lo, hi)
    && Halving(segs, Size((lo, hi)))
  }

  lemma SortingStarts(rec: seq<Byte>, s: seq<nat>, lo: nat, hi: int)
    requires hi < |s| <= INT_MAX && RecordsWithin(rec, s, lo, hi)
    ensures Sorting(rec, s, s, [(lo, hi)], lo, hi)
  {
    OrderedAtStart(rec, s, lo, hi);
  }

  lemma SortingOpens(rec: seq<Byte>, s0: seq<nat>, s: seq<nat>, segs: seq<Segment>, p: Segment, lo: nat, hi: int)
    requires Sorting(rec, s0, s, segs + [p], lo, hi) && p.0 < p.1
    ensures lo <= p.0 && p.1 <= hi && RecordsWithin(rec, s, p.0, p.1)
  {
    LayoutAppend(segs, p, lo, hi);
    RecordsStay(rec, s0, s, lo, hi, lo, hi);
  }

  /** Two or three entries are in order once the median is found. */
  lemma SortingDropsSmall(rec: seq<Byte>, s0: seq<nat>, s: seq<nat>, t: seq<nat>, segs: seq<Segment>, p: Segment,
                          lo: nat, hi: int)
    requires Sorting(rec, s0, s, segs + [p], lo, hi) && 0 <= p.0 < p.1 <= p.0 + 2 && p.1 < |s|
    requires PermutedWithin(s, t, p.0, p.1)
    requires Le(rec, t[p.0], t[p.1 - 1]) && Le(rec, t[p.1 - 1], t[p.1])
    ensures Sorting(rec, s0, t, segs, lo, hi)
  {
    hide Le, RecordsWithin;
    LayoutAppend(segs, p, lo, hi);
    PermutedTwice(s0, s, t, p.0, p.1, lo, hi);
    PermuteOrdered(rec, s, t, segs, p, lo, hi);
    LeTransitive(rec, t[p.0], t[p.1 - 1], t[p.1]);
    DropOrdered(rec, t, segs, p, lo, hi);
    HalvingPrefix(segs, p, Size((lo, hi)));
  }

  lemma SortingDropsTrivial(rec: seq<Byte>, s0: seq<nat>, s: seq<nat>, segs: seq<Segment>, p: Segment, lo: nat, hi: int)
    requires Sorting(rec, s0, s, segs + [p], lo, hi) && p.1 <= p.0
    ensures Sorting(rec, s0, s, segs, lo, hi)
  {
    DropOrdered(rec, s, segs, p, lo, hi);
    HalvingPrefix(segs, p, Size((lo, hi)));
  }

  lemma HalvingPrefix(segs: seq<Segment>, p: Segment, n: nat)
    requires Halving(segs + [p], n)
    ensures Halving(segs, n) && Size(p) * Pow2(|segs|) <= n
  {
    assert (segs + [p])[|segs|] == p;
    forall k | 0 <= k < |segs| ensures Size(segs[k]) * Pow2(k) <= n {
      assert (segs + [p])[k] == segs[k];
    }
  }

  /** The median found, and the rest partitioned about it, the segment is split and the larger part is pushed. */
  lemma SortingSplits(rec: seq<Byte>, s0: seq<nat>, s: seq<nat>, t: seq<nat>, u: seq<nat>, segs: seq<Segment>,
                      p: Segment, i: int, larger: Segment, smaller: Segment, lo: nat, hi: int)
    requires Sorting(rec, s0, s, segs + [p], lo, hi) && 0 <= p.0 && p.0 + 2 < p.1 < |s|
    requires PermutedWithin(s, t, p.0, p.1) && PermutedWithin(t, u, p.0 + 1, p.1 - 1)
    requires p.0 + 1 <= i <= p.1 - 1 && u[i] == t[p.1 - 1]
    requires Le(rec, t[p.0], t[p.1 - 1]) && Le(rec, t[p.1 - 1], t[p.1])
    requires forall k :: p.0 + 1 <= k <= i ==> Le(rec, u[k], u[i])
    requires forall k :: i <= k <= p.1 - 1 ==> Le(rec, u[i], u[k])
    requires (larger, smaller) == ((p.0, i - 1), (i + 1, p.1)) || (smaller, larger) == ((p.0, i - 1), (i + 1, p.1))
    requires Size(smaller) <= Size(larger)
    ensures Sorting(rec, s0, u, segs + [larger] + [smaller], lo, hi)
    ensures |segs| < 29
  {
    hide Le, RecordsWithin;
    LayoutAppend(segs, p, lo, hi);
    assert u[p.0] == t[p.0] && u[p.1] == t[p.1];
    PermutedTwice(s, t, u, p.0 + 1, p.1 - 1, p.0, p.1);
    PermutedTwice(s0, s, u, p.0, p.1, lo, hi);
    PermuteOrdered(rec, s, u, segs, p, lo, hi);
    SplitOrdered(rec, u, segs, p, i, larger, smaller, lo, hi);
    SplitHalves(segs, p, larger, smaller, Size((lo, hi)));
    HalvingPrefix(segs, p, Size((lo, hi)));
    StackStaysShallow(Size(p), |segs|, Size((lo, hi)));
  }

  lemma SortingEnds(rec: seq<Byte>, s0: seq<nat>, s: seq<nat>, lo: nat, hi: int)
    requires Sorting(rec, s0, s, [], lo, hi)
    ensures PermutedWithin(s0, s, lo, hi) && SortedWithin(rec, s, lo, hi)
  {
    hide Le, PermutedWithin;
    forall a, b | 0 <= a < b < |s| && lo <= a && b <= hi ensures Le(rec, s[a], s[b]) {
      assert !Together([], a, b);
    }
  }

  /** Partitions a segment, pushes the larger part and goes on with the smaller one. */
  method SplitAndPush(mem: array<Byte>, base: nat, l: nat, r: int, stack: array<int>, stackpos: nat,
                      ghost rec: seq<Byte>, ghost s0: seq<nat>, ghost s: seq<nat>, ghost t: seq<nat>,
                      ghost segs: seq<Segment>, ghost l0: nat, ghost r0: int)
    returns (l': nat, r': int, stackpos': nat, ghost segs': seq<Segment>)
    requires base <= mem.Length && l + 2 < r < (mem.Length - base) / 4 && stack.Length == 64
    requires mem[..base] == rec && Entries(mem, base) == t && RecordsWithin(rec, t, l, r)
    requires Sorting(rec, s0, s, segs + [(l, r)], l0, r0) && PermutedWithin(s, t, l, r) && r < |s|
    requires Le(rec, t[l], t[r - 1]) && Le(rec, t[r - 1], t[r])
    requires stackpos == 2 * |segs| && Stacked(stack[..], segs)
    modifies mem, stack
    ensures mem[..base] == rec && Sorting(rec, s0, Entries(mem, base), segs' + [(l', r')], l0, r0)
    ensures stackpos' == 2 * |segs'| && Stacked(stack[..], segs')
    ensures TotalSize(segs') + Size((l', r')) < TotalSize(segs) + Size((l, r))
  {
    hide Le, IsRecord, Entries, IndexOf, Sorting, PermutedWithin, TotalSize, Stacked;
    var i := Partition(mem, base, l + 1, r - 1);
    ghost var u := Entries(mem, base);
    if i - l > r - i {
      SortingSplits(rec, s0, s, t, u, segs, (l, r), i, (l, i - 1), (i + 1, r), l0, r0);
      TotalSizeAppend(segs, (l, i - 1));
      stackpos' := Push2(stack, stackpos, l, i - 1, segs);
      return i + 1, r, stackpos', segs + [(l, i - 1)];
    } else {
      SortingSplits(rec, s0, s, t, u, segs, (l, r), i, (i + 1, r), (l, i - 1), l0, r0);
      TotalSizeAppend(segs, (i + 1, r));
      stackpos' := Push2(stack, stackpos, i + 1, r, segs);
      return l, i - 1, stackpos', segs + [(i + 1, r)];
    }
  }

  /** Sorts the entries from `l0` to `r0` by name; 64 integers of stack are enough for any count that fits an `int`. */
  method QSort(mem: array<Byte>, base: nat, l0: nat, r0: int)
    requires base <= mem.Length && r0 < (mem.Length - base) / 4 <= INT_MAX
    requires RecordsWithin(mem[..base], Entries(mem, base), l0, r0)
    modifies mem
    ensures mem[..base] == old(mem[..base])
    ensures PermutedWithin(old(Entries(mem, base)), Entries(mem, base), l0, r0)
    ensures SortedWithin(mem[..base], Entries(mem, base), l0, r0)
  {
    hide Le, IsRecord, Entries, IndexOf, Sorting, PermutedWithin, TotalSize, Halving, Layout, OrderedBetween,
      SortedWithin, Stacked;
    ghost var rec, s0 := mem[..base], Entries(mem, base);
    var stack, stackpos := new int[64], 0;
    var l, r: int := l0, r0;
    ghost var segs: seq<Segment> := [];
    SortingStarts(rec, s0, l0, r0);
    NothingStacked(stack[..]);
    assert segs + [(l, r)] == [(l0, r0)];
    while true
      invariant mem[..base] == rec && Sorting(rec, s0, Entries(mem, base), segs + [(l, r)], l0, r0)
      invariant stackpos == 2 * |segs| && Stacked(stack[..], segs)
      decreases TotalSize(segs) + Size((l, r)), |segs|
    {
      ghost var size, depth := TotalSize(segs) + Size((l, r)), |segs|;
      while r > l
        invariant mem[..base] == rec && Sorting(rec, s0, Entries(mem, base), segs + [(l, r)], l0, r0)
        invariant stackpos == 2 * |segs| && Stacked(stack[..], segs)
        invariant TotalSize(segs) + Size((l, r)) <= size
        invariant TotalSize(segs) + Size((l, r)) < size || |segs| == depth
        decreases TotalSize(segs) + Size((l, r))
      {
        ghost var s := Entries(mem, base);
        SortingOpens(rec, s0, s, segs, (l, r), l0, r0);
        MedianOfThree(mem, base, l, r);
        ghost var t := Entries(mem, base);
        if r - 1 <= l + 1 {
          SortingDropsSmall(rec, s0, s, t, segs, (l, r), l0, r0);
          break;
        }
        l, r, stackpos, segs := SplitAndPush(mem, base, l, r, stack, stackpos, rec, s0, s, t, segs, l0, r0);
      }
      if r <= l {
        SortingDropsTrivial(rec, s0, Entries(mem, base), segs, (l, r), l0, r0);
      }
      if stackpos == 0 {
        break;
      }
      l, r, stackpos := Pop2(stack, stackpos, segs);
      TotalSizeAppend(segs[..|segs| - 1], (l, r));
      segs := segs[..|segs| - 1];
    }
    SortingEnds(rec, s0, Entries(mem, base), l0, r0);
  }
}
