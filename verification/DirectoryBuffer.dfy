/** The directory buffer: an arena with the records at its low end and their index at its high end. */
module DirectoryBuffers {
  import opened Memory
  import opened WideStrings
  import opened FileNames
  import opened RecordPacking
  import opened DirectoryIndex
  import opened DirectorySort

  const LO_BOUND: nat := 256
  const HI_BOUND: nat := 1024 * 1024
  const LO_FACTOR: nat := 4
  const HI_FACTOR: nat := 2

  datatype Status = Success | InvalidParameter | InsufficientResources

  // ---------- what an index denotes ----------

  /** The records an index stands for; an invalidated entry stands for none. */
  ghost function Denote(rec: seq<Byte>, s: seq<nat>): (d: seq<Option<Record>>)
    ensures |d| == |s|
  {
    seq(|s|, k requires 0 <= k < |s| => if IsRecord(rec, s[k]) then Some(RecordAt(rec, s[k])) else None)
  }

  ghost predicate Disjoint(rec: seq<Byte>, a: nat, b: nat)
    requires IsRecord(rec, a) && IsRecord(rec, b)
  {
    a + U16At(rec, a) <= b || b + U16At(rec, b) <= a
  }

  /** Every entry is invalidated or is the offset of a whole record; no record has two entries and no two records
      overlap. */
  ghost predicate Sound(rec: seq<Byte>, s: seq<nat>)
  {
    && (forall x :: x in s && x != INVALID ==> IsRecord(rec, x) && multiset(s)[x] == 1)
    && (forall x, y :: x in s && y in s && x != INVALID && y != INVALID && x != y ==> Disjoint(rec, x, y))
  }

  function ValidOnly(s: seq<nat>): seq<nat>
  {
    if s == [] then [] else (if s[0] == INVALID then [] else [s[0]]) + ValidOnly(s[1..])
  }

  function Present<T>(d: seq<Option<T>>): seq<T>
  {
    if d == [] then [] else (if d[0].None? then [] else [d[0].value]) + Present(d[1..])
  }

  ghost predicate Ordered(recs: seq<Record>)
  {
    forall a, b :: 0 <= a < b < |recs| ==> !NameLess(NameIn(recs[b]), NameIn(recs[a]))
  }

  // ---------- capacities ----------

  function HighBit(n: nat): (k: nat)
    requires n > 0
    ensures Pow2(k) <= n < 2 * Pow2(k)
  {
    if n == 1 then 0 else 1 + HighBit(n / 2)
  }

  type ULong = x: nat | x < 0x1_0000_0000

  /** 1 shifted to the left as the processors do it, which look at the last five bits of the count only. */
  function Shifted(count: nat): nat
  {
    Pow2(count % 32)
  }

  /** The capacity a hint stands for: the next power of two, within bounds, or the lower bound if that power has no 32
      bits (and if there is no hint, since 1 is taken away from it first). */
  function InitialCapacity(hint: ULong): (c: nat)
    ensures LO_BOUND <= c <= HI_BOUND
  {
    var less := OneLess(hint);
    Within(if less > 0 then Shifted(1 + HighBit(less)) else hint)
  }

  function OneLess(hint: ULong): ULong
  {
    if hint == 0 then 0xFFFF_FFFF else hint - 1
  }

  function Within(p: nat): (c: nat)
    ensures LO_BOUND <= c <= HI_BOUND
  {
    if LO_BOUND > p then LO_BOUND else if HI_BOUND < p then HI_BOUND else p
  }

  lemma Pow2Ordered(j: nat, k: nat)
    ensures j <= k ==> Pow2(j) <= Pow2(k)
  {
    if j <= k { Pow2Grows(j, k); }
  }

  lemma HighBitOfWord(n: ULong)
    requires n > 0
    ensures HighBit(n) <= 31 && (HighBit(n) == 31 <==> n >= 0x8000_0000)
  {
    Pow2At29();
    assert Pow2(31) == 0x8000_0000;
    Pow2Ordered(32, HighBit(n));
    Pow2Ordered(HighBit(n), 30);
  }

  lemma ShiftedWithin(count: nat)
    ensures Pow2(0) == 1 && Pow2(8) == LO_BOUND && Pow2(20) == HI_BOUND
    ensures exists k :: 8 <= k <= 20 && Within(Shifted(count)) == Pow2(k)
  {
    assert Pow2(8) == LO_BOUND;
    assert Pow2(18) == 1024 * LO_BOUND;
    var k := count % 32;
    Pow2Ordered(k, 8);
    Pow2Ordered(8, k);
    Pow2Ordered(k, 20);
    Pow2Ordered(20, k);
    hide Pow2;
    assert Within(Shifted(count)) == Pow2(if k < 8 then 8 else if k > 20 then 20 else k);
  }

  /** It is a power of two, at least the hint unless that is out of bounds, and less than twice the hint. */
  lemma InitialCapacityIs(hint: ULong)
    ensures var c := InitialCapacity(hint);
            && (exists k :: 8 <= k <= 20 && c == Pow2(k))
            && (1 <= hint <= 0x8000_0000 ==> (c < 0x10_0000 ==> hint <= c) && (c > 256 ==> c < 2 * hint))
            && (hint == 0 || hint > 0x8000_0000 ==> c == 256)
  {
    hide Pow2, HighBit;
    var less := OneLess(hint);
    ShiftedWithin(0);
    if less > 0 {
      var k := HighBit(less);
      HighBitOfWord(less);
      ShiftedWithin(1 + k);
      Doubles(k);
    }
  }

  lemma Doubles(k: nat)
    ensures Pow2(k + 1) == 2 * Pow2(k)
  {
  }

  function NextCapacity(capacity: nat, initial: nat): nat
  {
    if capacity == 0 then initial
    else capacity * (if HI_BOUND > capacity then LO_FACTOR else HI_FACTOR)
  }

  /** The first capacity is the initial one; it is multiplied by 4 as long as it is below 1M, and by 2 from there on. */
  lemma NextCapacityIs(capacity: nat, initial: nat)
    ensures NextCapacity(0, initial) == initial
    ensures 0 < capacity < 0x10_0000 ==> NextCapacity(capacity, initial) == 4 * capacity
    ensures capacity >= 0x10_0000 ==> NextCapacity(capacity, initial) == 2 * capacity
  {
  }

  /** Growing step by step reaches `need` bytes without an allocation being refused. */
  ghost predicate Obtains(capacity: nat, initial: nat, need: nat, allocate: nat -> bool)
    requires initial > 0
    decreases need - capacity
  {
    need <= capacity ||
    (allocate(NextCapacity(capacity, initial)) && Obtains(NextCapacity(capacity, initial), initial, need, allocate))
  }

  /** The capacity that is reached then. */
  ghost function Grown(capacity: nat, initial: nat, need: nat): nat
    requires initial > 0
    decreases need - capacity
  {
    if need <= capacity then capacity else Grown(NextCapacity(capacity, initial), initial, need)
  }

  lemma ObtainsStep(capacity: nat, initial: nat, need: nat, allocate: nat -> bool)
    requires initial > 0
    ensures need <= capacity ==> Obtains(capacity, initial, need, allocate)
    ensures need > capacity ==>
              && capacity < NextCapacity(capacity, initial)
              && (Obtains(capacity, initial, need, allocate) <==>
                    allocate(NextCapacity(capacity, initial)) &&
                    Obtains(NextCapacity(capacity, initial), initial, need, allocate))
    ensures Grown(capacity, initial, need) ==
            if need <= capacity then capacity else Grown(NextCapacity(capacity, initial), initial, need)
  {
  }

  // ---------- lemmas about arenas ----------

  /** More bytes after the records change nothing. */
  lemma DenoteExtends(rec: seq<Byte>, rec': seq<Byte>, s: seq<nat>)
    requires |rec| <= |rec'| <= INT_MAX && rec == rec'[..|rec|] && Sound(rec, s)
    ensures Sound(rec', s) && Denote(rec', s) == Denote(rec, s)
  {
    forall x | x in s && x != INVALID
      ensures IsRecord(rec', x) && U16At(rec', x) == U16At(rec, x) && RecordAt(rec', x) == RecordAt(rec, x)
    {
      assert rec[x] == rec'[x] && rec[x + 1] == rec'[x + 1];
      SliceOfTake(rec', |rec|, x, x + U16At(rec, x));
    }
    forall k | 0 <= k < |s| ensures Denote(rec', s)[k] == Denote(rec, s)[k] {
      assert s[k] in s;
    }
  }

  /** A record put after all others becomes the first one the index denotes. */
  lemma FillDenotes(rec: seq<Byte>, rec': seq<Byte>, r: Record, s: seq<nat>)
    requires |rec| + |r| <= |rec'| <= INT_MAX && rec == rec'[..|rec|] && rec'[|rec|..|rec| + |r|] == r
    requires Sound(rec, s) && SelfSized(r) && |r| >= DIR_INFO_SIZE
    ensures Sound(rec', [|rec|] + s)
    ensures Denote(rec', [|rec|] + s) == [Some(r)] + Denote(rec, s)
  {
    var o := |rec|;
    DenoteExtends(rec, rec', s);
    assert rec'[o] == r[0] && rec'[o + 1] == r[1] by {
      assert rec'[o..o + |r|][0] == r[0] && rec'[o..o + |r|][1] == r[1];
    }
    assert IsRecord(rec', o) && RecordAt(rec', o) == r;
    RecordsLieBefore(rec, rec', s);
    hide IsRecord, RecordAt, U16At;
    assert forall x :: multiset([o] + s)[x] == multiset{o}[x] + multiset(s)[x];
  }

  /** What is behind the records is apart from them. */
  lemma RecordsLieBefore(rec: seq<Byte>, rec': seq<Byte>, s: seq<nat>)
    requires |rec| <= |rec'| <= INT_MAX && rec == rec'[..|rec|] && Sound(rec, s) && IsRecord(rec', |rec|)
    ensures |rec| !in s && forall x :: x in s && x != INVALID ==> IsRecord(rec', x) && Disjoint(rec', |rec|, x)
  {
    forall x | x in s && x != INVALID ensures IsRecord(rec', x) && Disjoint(rec', |rec|, x) {
      assert rec[x] == rec'[x] && rec[x + 1] == rec'[x + 1];
    }
  }

  lemma IndexTail(mem: seq<Byte>, base: nat, k: nat)
    requires base + 4 * k <= |mem|
    ensures IndexOf(mem, base)[k..] == IndexOf(mem, base + 4 * k)
  {
  }

  /** The index moves with its bytes. */
  lemma IndexMoves(mem: seq<Byte>, hi: nat, mem': seq<Byte>, hi': nat)
    requires hi <= |mem| && hi' <= |mem'| && mem[hi..] == mem'[hi'..]
    ensures IndexOf(mem, hi) == IndexOf(mem', hi')
  {
    forall k | 0 <= k < (|mem| - hi) / 4 ensures IndexOf(mem, hi)[k] == IndexOf(mem', hi')[k] {
      var o := 4 * k;
      assert mem[hi + o] == mem[hi..][o] == mem'[hi' + o] && mem[hi + o + 1] == mem[hi..][o + 1] == mem'[hi' + o + 1];
      assert mem[hi + o + 2] == mem[hi..][o + 2] == mem'[hi' + o + 2] &&
             mem[hi + o + 3] == mem[hi..][o + 3] == mem'[hi' + o + 3];
    }
  }

  lemma {:induction false} ValidOnlyCount(s: seq<nat>, x: nat)
    ensures |ValidOnly(s)| <= |s|
    ensures multiset(ValidOnly(s))[x] == if x == INVALID then 0 else multiset(s)[x]
  {
    if s != [] {
      ValidOnlyCount(s[1..], x);
      assert s == [s[0]] + s[1..];
      assert multiset(s)[x] == multiset([s[0]])[x] + multiset(s[1..])[x];
    }
  }

  lemma {:induction false} PresentAppend<T>(d: seq<Option<T>>, e: seq<Option<T>>)
    ensures Present(d + e) == Present(d) + Present(e)
  {
    if d == [] {
      assert d + e == e;
    } else {
      assert (d + e)[1..] == d[1..] + e;
      PresentAppend(d[1..], e);
    }
  }

  /** Dropping the invalidated entries keeps the rest sound, and they denote the records that are present. */
  lemma {:induction false} CompactionDenotes(rec: seq<Byte>, s: seq<nat>)
    requires Sound(rec, s) && |rec| <= INT_MAX
    ensures Sound(rec, ValidOnly(s)) && INVALID !in ValidOnly(s)
    ensures Present(Denote(rec, ValidOnly(s))) == Present(Denote(rec, s))
  {
    forall x
      ensures multiset(ValidOnly(s))[x] == if x == INVALID then 0 else multiset(s)[x]
      ensures x in ValidOnly(s) <==> x in s && x != INVALID
    {
      ValidOnlyCount(s, x);
      assert (x in ValidOnly(s) <==> x in multiset(ValidOnly(s))) && (x in s <==> x in multiset(s));
    }
    CompactionPresent(rec, s);
  }

  lemma DenoteCons(rec: seq<Byte>, x: nat, rest: seq<nat>)
    ensures Denote(rec, [x] + rest) == Denote(rec, [x]) + Denote(rec, rest)
  {
    assert ([x] + rest)[1..] == rest;
  }

  lemma InvalidIsNothing(rec: seq<Byte>)
    requires |rec| <= INT_MAX
    ensures Present(Denote(rec, [INVALID])) == []
  {
  }

  lemma {:induction false} CompactionPresent(rec: seq<Byte>, s: seq<nat>)
    requires |rec| <= INT_MAX && forall x :: x in s && x != INVALID ==> IsRecord(rec, x)
    ensures Present(Denote(rec, ValidOnly(s))) == Present(Denote(rec, s))
  {
    if s != [] {
      hide IsRecord, RecordAt, Present;
      var rest := s[1..];
      CompactionPresent(rec, rest) by {
        assert forall x :: x in rest ==> x in s;
      }
      assert s == [s[0]] + rest;
      DenoteCons(rec, s[0], rest);
      PresentAppend(Denote(rec, [s[0]]), Denote(rec, rest));
      if s[0] == INVALID {
        InvalidIsNothing(rec);
        assert ValidOnly(s) == ValidOnly(rest);
      } else {
        DenoteCons(rec, s[0], ValidOnly(rest));
        PresentAppend(Denote(rec, [s[0]]), Denote(rec, ValidOnly(rest)));
        assert ValidOnly(s) == [s[0]] + ValidOnly(rest);
      }
    }
  }

  lemma SoundPermuted(rec: seq<Byte>, s: seq<nat>, t: seq<nat>)
    requires Sound(rec, s) && multiset(s) == multiset(t)
    ensures Sound(rec, t)
  {
    assert forall x :: x in t <==> x in multiset(t);
    assert forall x :: x in s <==> x in multiset(s);
  }

  lemma RemovedFromMultiset(t: seq<nat>, k: nat)
    requires k < |t|
    ensures multiset(t[..k] + t[k + 1..]) == multiset(t) - multiset{t[k]}
  {
    assert t == t[..k] + [t[k]] + t[k + 1..];
  }

  lemma DenoteRemoved(rec: seq<Byte>, t: seq<nat>, k: nat)
    requires k < |t|
    ensures multiset(Present(Denote(rec, t))) ==
            multiset(Present(Denote(rec, [t[k]]))) + multiset(Present(Denote(rec, t[..k] + t[k + 1..])))
  {
    hide IsRecord, RecordAt, Present;
    var a, b, c := Denote(rec, t[..k]), Denote(rec, [t[k]]), Denote(rec, t[k + 1..]);
    assert Denote(rec, t) == a + b + c && Denote(rec, t[..k] + t[k + 1..]) == a + c;
    PresentAppend(a + b, c);
    PresentAppend(a, b);
    PresentAppend(a, c);
  }

  lemma PlaceOf(s: seq<nat>, t: seq<nat>) returns (k: nat)
    requires multiset(s) == multiset(t) && s != []
    ensures k < |t| && t[k] == s[0]
  {
    assert s[0] in multiset(t);
    k :| 0 <= k < |t| && t[k] == s[0];
  }

  /** The records an index denotes depend on its entries, not on their order. */
  lemma {:induction false} DenotePermuted(rec: seq<Byte>, s: seq<nat>, t: seq<nat>)
    requires multiset(s) == multiset(t)
    ensures multiset(Present(Denote(rec, s))) == multiset(Present(Denote(rec, t)))
    decreases |s|
  {
    hide Denote, Present;
    if s == [] {
      assert |multiset(t)| == 0;
    } else {
      var k := PlaceOf(s, t);
      RemovedFromMultiset(s, 0);
      RemovedFromMultiset(t, k);
      DenoteRemoved(rec, s, 0);
      DenoteRemoved(rec, t, k);
      DenotePermuted(rec, s[..0] + s[1..], t[..k] + t[k + 1..]);
    }
  }

  lemma {:induction false} PresentOfWhole<T>(d: seq<Option<T>>)
    requires forall k :: 0 <= k < |d| ==> d[k].Some?
    ensures |Present(d)| == |d| && forall k :: 0 <= k < |d| ==> Present(d)[k] == d[k].value
  {
    if d != [] {
      PresentOfWhole(d[1..]);
    }
  }

  /** A sorted index without invalidated entries denotes the records in the order of their names. */
  lemma SortedDenotes(rec: seq<Byte>, s: seq<nat>)
    requires forall x :: x in s ==> IsRecord(rec, x)
    ensures forall k :: 0 <= k < |s| ==> Denote(rec, s)[k].Some?
    ensures |Present(Denote(rec, s))| == |s|
    ensures forall k :: 0 <= k < |s| ==> Present(Denote(rec, s))[k] == RecordAt(rec, s[k])
    ensures SortedWithin(rec, s, 0, |s| - 1) <==> Ordered(Present(Denote(rec, s)))
  {
    PresentOfWhole(Denote(rec, s));
    var recs := Present(Denote(rec, s));
    forall k | 0 <= k < |s| ensures NameIn(recs[k]) == NameAt(rec, s[k]) {}
    hide IsRecord, RecordAt, NameIn, NameAt, Present;
    if Ordered(recs) {
      forall a, b | 0 <= a < b < |s| ensures Le(rec, s[a], s[b]) {
        assert NameIn(recs[b]) == NameAt(rec, s[b]);
      }
    }
  }

  /** Copying a record to the low end and its offset to the high end adds the record. */
  lemma ExtendDenotes(mem: seq<Byte>, copied: seq<Byte>, after: seq<Byte>, lo: nat, lo': nat, hi: nat, r: Record)
    requires SelfSized(r) && |r| >= DIR_INFO_SIZE
    requires lo' == lo + AlignUp(|r|) && lo' + 4 <= hi <= |mem| == |after| <= INT_MAX
    requires copied == Overwrite(mem, lo, r)
    requires after[..hi - 4] == copied[..hi - 4]
    requires |IndexOf(copied, hi - 4)| > 0 && IndexOf(after, hi - 4) == IndexOf(copied, hi - 4)[0 := lo]
    requires Sound(mem[..lo], IndexOf(mem, hi))
    ensures Sound(after[..lo'], IndexOf(after, hi - 4))
    ensures Denote(after[..lo'], IndexOf(after, hi - 4)) == [Some(r)] + Denote(mem[..lo], IndexOf(mem, hi))
  {
    hide Sound, Denote, IndexOf, SelfSized;
    IndexMoves(mem, hi, copied, hi) by {
      assert mem[hi..] == mem[lo + |r|..][hi - lo - |r|..];
      assert copied[hi..] == copied[lo + |r|..][hi - lo - |r|..];
    }
    IndexTail(copied, hi - 4, 1);
    assert IndexOf(after, hi - 4) == [lo] + IndexOf(mem, hi);
    var rec, rec' := mem[..lo], after[..lo'];
    AgreeWithin(after, copied, hi - 4, 0, lo');
    SliceOfTake(copied, lo', 0, lo);
    SliceOfTake(copied, lo', lo, lo + |r|);
    FillDenotes(rec, rec', r, IndexOf(mem, hi));
  }

  /** Reallocates an arena and moves its index from `hi` to the new end. */
  method Relocate(arena: array<Byte>, hi: nat, newCapacity: nat) returns (moved: array<Byte>, newHi: nat)
    requires hi <= arena.Length <= newCapacity
    ensures fresh(moved) && moved.Length == newCapacity && newHi == newCapacity - (arena.Length - hi)
    ensures moved[..hi] == arena[..hi] && Entries(moved, newHi) == Entries(arena, hi)
  {
    moved := new Byte[newCapacity](i requires 0 <= i reads arena => if i < arena.Length then arena[i] else 0);
    var indexSize := arena.Length - hi;
    newHi := newCapacity - indexSize;
    forall i | 0 <= i < indexSize {
      moved[newHi + i] := moved[hi + i];
    }
    assert moved[..][newHi..] == arena[..][hi..];
    IndexMoves(arena[..], hi, moved[..], newHi);
  }

  lemma InvalidateDenotes(rec: seq<Byte>, s: seq<nat>, k: nat)
    requires Sound(rec, s) && k < |s| && |rec| <= INT_MAX
    ensures Sound(rec, s[k := INVALID])
    ensures Denote(rec, s[k := INVALID]) == Denote(rec, s)[k := None]
  {
    hide U16At, RecordAt;
    var t := s[k := INVALID];
    assert multiset(t) == multiset(s) - multiset{s[k]} + multiset{INVALID};
    forall x | x in t && x != INVALID ensures x in s && multiset(t)[x] == 1 {
      assert x in multiset(t);
    }
  }

  /** A sound index without invalidated entries is one the sort accepts, and the sort sees the same names. */
  lemma WiderArena(rec: seq<Byte>, wide: seq<Byte>, s: seq<nat>)
    requires Sound(rec, s) && INVALID !in s && |rec| <= |wide| && rec == wide[..|rec|]
    ensures RecordsWithin(wide, s, 0, |s| - 1) && forall x :: x in s ==> IsRecord(rec, x)
    ensures SortedWithin(wide, s, 0, |s| - 1) <==> SortedWithin(rec, s, 0, |s| - 1)
  {
    hide NameIn;
    forall x | x in s ensures IsRecord(rec, x) && IsRecord(wide, x) && NameAt(wide, x) == NameAt(rec, x) {
      assert x != INVALID;
      assert wide[x] == rec[x] && wide[x + 1] == rec[x + 1];
      SliceOfTake(wide, |rec|, x, x + U16At(rec, x));
    }
    hide NameAt, IsRecord;
    if SortedWithin(wide, s, 0, |s| - 1) {
      forall a, b | 0 <= a < b < |s| ensures Le(rec, s[a], s[b]) {
        assert s[a] in s && s[b] in s && Le(wide, s[a], s[b]);
      }
    }
    if SortedWithin(rec, s, 0, |s| - 1) {
      forall a, b | 0 <= a < b < |s| ensures Le(wide, s[a], s[b]) {
        assert s[a] in s && s[b] in s && Le(rec, s[a], s[b]);
      }
    }
  }

  lemma NothingCompacted(s: seq<nat>)
    ensures s[|s|..] == [] && ValidOnly([]) == [] && s[0..] == s
  {
  }

  lemma CompactStep(s0: seq<nat>, s: seq<nat>, i: nat, j: nat)
    requires |s| == |s0| && i < j <= |s| && s[..i + 1] == s0[..i + 1] && s[j..] == ValidOnly(s0[i + 1..])
    ensures s[..i] == s0[..i]
    ensures s[i] == INVALID ==> s[j..] == ValidOnly(s0[i..])
    ensures s[i] != INVALID ==> s[j - 1 := s[i]][..i] == s0[..i] && s[j - 1 := s[i]][j - 1..] == ValidOnly(s0[i..])
  {
    assert s[i] == s[..i + 1][i] == s0[..i + 1][i] == s0[i];
    assert s0[i..][1..] == s0[i + 1..];
    assert s[..i] == s[..i + 1][..i] && s0[..i] == s0[..i + 1][..i];
    if s[i] != INVALID {
      var t := s[j - 1 := s[i]];
      assert t[..i] == s[..i] && t[j - 1..] == [s[i]] + s[j..];
    }
  }

  /** Compacts an index in place, from the top down: what is kept ends up from entry `j` on. */
  method Compact(mem: array<Byte>, base: nat) returns (j: int)
    requires base <= mem.Length
    modifies mem
    ensures mem[..base] == old(mem[..base])
    ensures 0 <= j <= (mem.Length - base) / 4 && Entries(mem, base + 4 * j) == ValidOnly(old(Entries(mem, base)))
  {
    hide IndexOf, Entries, ValidOnly;
    ghost var s0 := Entries(mem, base);
    NothingCompacted(s0);
    var count := (mem.Length - base) / 4;
    var i := count - 1;
    j := count;
    while i >= 0
      invariant -1 <= i < j <= count
      invariant mem[..base] == old(mem[..base])
      invariant Entries(mem, base)[..i + 1] == s0[..i + 1]
      invariant Entries(mem, base)[j..] == ValidOnly(s0[i + 1..])
    {
      ghost var s := Entries(mem, base);
      CompactStep(s0, s, i, j);
      var entry := GetEntry(mem, base, i);
      if entry != INVALID {
        j := j - 1;
        SetEntry(mem, base, j, entry);
      }
      i := i - 1;
    }
    EntriesTail(mem, base, j);
  }

  /** Sorting an index without invalidated entries denotes the same records, ordered by name. */
  lemma SortDenotes(rec: seq<Byte>, wide: seq<Byte>, s: seq<nat>, t: seq<nat>)
    requires Sound(rec, s) && INVALID !in s && |rec| <= |wide| && |rec| <= INT_MAX && rec == wide[..|rec|]
    requires PermutedWithin(s, t, 0, |s| - 1) && SortedWithin(wide, t, 0, |t| - 1)
    ensures Sound(rec, t) && INVALID !in t
    ensures Ordered(Present(Denote(rec, t)))
    ensures multiset(Present(Denote(rec, t))) == multiset(Present(Denote(rec, s)))
  {
    hide Sound, U16At, RecordAt, Le, Denote, Present, SortedWithin, Ordered;
    SoundPermuted(rec, s, t);
    DenotePermuted(rec, s, t);
    assert INVALID !in t by {
      assert INVALID in t <==> INVALID in multiset(t);
    }
    WiderArena(rec, wide, t);
    SortedDenotes(rec, t);
  }

  lemma EntriesTail(mem: array<Byte>, base: nat, j: nat)
    requires base <= mem.Length && j <= (mem.Length - base) / 4
    ensures Entries(mem, base + 4 * j) == Entries(mem, base)[j..]
  {
    IndexTail(mem[..], base, j);
  }

  // ---------- pages ----------

  /** The listing resumes at `from` after a marker: what is before is not after the marker, the rest not before it, and
      a record with the marker's name, if there is one, stands just before `from`. */
  ghost predicate ResumesAt(recs: seq<Record>, marker: Wide, from: int)
  {
    && 0 <= from <= |recs|
    && (forall k :: 0 <= k < from ==> !NameLess(marker, NameIn(recs[k])))
    && (forall k :: from <= k < |recs| ==> !NameLess(NameIn(recs[k]), marker))
    && ((exists k :: 0 <= k < |recs| && NameEqual(NameIn(recs[k]), marker)) ==>
          from > 0 && NameEqual(NameIn(recs[from - 1]), marker))
  }

  /** From `o` to `e` lie as many records as fit below `length`, and an end mark if those are all and it fits too. */
  ghost predicate IsPage(page: seq<Byte>, o: nat, recs: seq<Record>, length: nat, e: nat)
  {
    var n := Fitting(recs, length - o);
    var end := o + PackedSize(recs[..n]);
    && PackedAt(page, o, recs[..n], end)
    && end <= length <= |page|
    && (if n == |recs| && end + 2 <= length then e == end + 2 && page[end..e] == END_MARK else e == end)
  }

  lemma SearchStep(recs: seq<Record>, marker: Wide, mi: nat)
    requires Ordered(recs) && mi < |recs|
    ensures NameLess(NameIn(recs[mi]), marker) ==> forall k :: 0 <= k <= mi ==> NameLess(NameIn(recs[k]), marker)
    ensures NameLess(marker, NameIn(recs[mi])) ==> forall k :: mi <= k < |recs| ==> NameLess(marker, NameIn(recs[k]))
    ensures NameEqual(NameIn(recs[mi]), marker) ==> ResumesAt(recs, marker, mi + 1)
  {
    hide NameLess, NameEqual, NameIn;
    var m := NameIn(recs[mi]);
    forall k | 0 <= k < |recs|
      ensures k <= mi && NameLess(m, marker) ==> NameLess(NameIn(recs[k]), marker)
      ensures k >= mi && NameLess(marker, m) ==> NameLess(marker, NameIn(recs[k]))
      ensures k <= mi && NameEqual(m, marker) ==> !NameLess(marker, NameIn(recs[k]))
      ensures k >= mi && NameEqual(m, marker) ==> !NameLess(NameIn(recs[k]), marker)
    {
      var n := NameIn(recs[k]);
      NamesAreTotal(m, marker);
      NamesAreTotal(marker, m);
      NamesAreTotal(m, m);
      if NameEqual(m, marker) { EqualNamesCompareAlike(m, marker, n); }
      if k <= mi {
        assert !NameLess(m, n) by { if k == mi { NamesAreTotal(m, m); } }
        if NameLess(m, marker) { NamesAreTransitive(n, m, marker); }
      }
      if k >= mi {
        assert !NameLess(n, m) by { if k == mi { NamesAreTotal(m, m); } }
        if NameLess(marker, m) { NamesAreTransitive(marker, m, n); }
      }
    }
  }

  lemma SearchFails(recs: seq<Record>, marker: Wide, lo: nat)
    requires lo <= |recs|
    requires forall k :: 0 <= k < lo ==> NameLess(NameIn(recs[k]), marker)
    requires forall k :: lo <= k < |recs| ==> NameLess(marker, NameIn(recs[k]))
    ensures ResumesAt(recs, marker, lo)
    ensures forall k :: 0 <= k < |recs| ==> !NameEqual(NameIn(recs[k]), marker)
  {
    hide NameLess, NameEqual, NameIn;
    forall k | 0 <= k < |recs|
      ensures !NameEqual(NameIn(recs[k]), marker)
      ensures (k < lo ==> !NameLess(marker, NameIn(recs[k]))) && (k >= lo ==> !NameLess(NameIn(recs[k]), marker))
    {
      NamesAreTotal(NameIn(recs[k]), marker);
      NamesAreTotal(marker, NameIn(recs[k]));
      if NameEqual(NameIn(recs[k]), marker) { EqualNamesCompareAlike(NameIn(recs[k]), marker, marker); }
    }
  }

  lemma EqualNamesCompareAlike(a: Wide, b: Wide, c: Wide)
    requires NameEqual(a, b)
    ensures NameLess(a, c) <==> NameLess(b, c)
    ensures NameLess(c, a) <==> NameLess(c, b)
  {
  }

  /** Nothing changes before `o` and from `e` on. */
  ghost predicate SameOutside(before: seq<Byte>, page: seq<Byte>, o: nat, e: nat)
  {
    o <= e <= |page| == |before| && page[..o] == before[..o] && page[e..] == before[e..]
  }

  /** The part of a page that is written so far: `recs` from `o` to `e`, and nothing else has changed. */
  lemma OutsideIs(before: seq<Byte>, page: seq<Byte>, o: nat, e: nat)
    requires SameOutside(before, page, o, e)
    ensures o <= e <= |page| == |before| && page[..o] == before[..o] && page[e..] == before[e..]
  {
  }

  ghost predicate Written(before: seq<Byte>, page: seq<Byte>, o: nat, recs: seq<Record>, e: nat)
  {
    SameOutside(before, page, o, e) && PackedAt(page, o, recs, e)
  }

  lemma EmptyResumes(marker: Option<Wide>)
    ensures marker.Some? ==> ResumesAt([], BeforeNul(marker.value), 0)
  {
  }

  lemma NothingWritten(page: seq<Byte>, o: nat)
    requires o <= |page|
    ensures Written(page, page, o, [], o)
  {
  }

  lemma WritingGrows(before: seq<Byte>, was: seq<Byte>, page: seq<Byte>, o: nat, recs: seq<Record>, from: nat,
                     n: nat, e: nat)
    requires from <= n < |recs| && Written(before, was, o, recs[from..n], e)
    requires e + AlignUp(|recs[n]|) <= |was| && page == Overwrite(was, e, recs[n])
    ensures Written(before, page, o, recs[from..n + 1], e + AlignUp(|recs[n]|))
  {
    var r := recs[n];
    PackedFrame(was, page, o, recs[from..n], e);
    PackedAppend(page, o, recs[from..n], e, r);
    assert recs[from..n + 1] == recs[from..n] + [r];
    AgreeWithin(page, was, e, 0, o);
    var g := e + AlignUp(|r|);
    AgreeBehind(page, was, e + |r|, g);
    AgreeBehind(was, before, e, g);
  }

  lemma WritingEnds(before: seq<Byte>, was: seq<Byte>, page: seq<Byte>, o: nat, recs: seq<Record>, length: nat, e: nat)
    requires Written(before, was, o, recs, e) && e <= length <= |was|
    requires page == if e + 2 <= length then Overwrite(was, e, END_MARK) else was
    ensures var e' := if e + 2 <= length then e + 2 else e;
            IsPage(page, o, recs, length, e') && SameOutside(before, page, o, e')
  {
    PackedFrame(was, page, o, recs, e);
    PackedEnd(page, o, recs, e);
    assert recs[..|recs|] == recs;
    FittingIs(recs, length - o, |recs|);
    AgreeWithin(page, was, e, 0, o);
    if e + 2 <= length { AgreeBehind(was, before, e, e + 2); }
  }

  lemma WritingStops(before: seq<Byte>, page: seq<Byte>, o: nat, recs: seq<Record>, from: nat, n: nat, length: nat,
                     e: nat)
    requires from <= n < |recs| && Written(before, page, o, recs[from..n], e) && e <= length <= |page|
    requires e + AlignUp(|recs[n]|) > length
    ensures IsPage(page, o, recs[from..], length, e) && SameOutside(before, page, o, e)
  {
    var rest, k := recs[from..], n - from;
    assert rest[..k] == recs[from..n];
    PackedEnd(page, o, rest[..k], e);
    assert rest[..k + 1] == rest[..k] + [rest[k]];
    PackedSizeAppend(rest[..k], rest[k]);
    FittingIs(rest, length - o, k);
  }

  lemma RecordsWhole(rec: seq<Byte>, s: seq<nat>, recs: seq<Record>)
    requires |recs| == |s| && forall k :: 0 <= k < |recs| ==> IsRecord(rec, s[k]) && recs[k] == RecordAt(rec, s[k])
    ensures AllSelfSized(recs)
  {
    forall r | r in recs ensures SelfSized(r) {
      var k :| 0 <= k < |recs| && recs[k] == r;
      assert r[0] == rec[s[k]] && r[1] == rec[s[k] + 1];
    }
  }

  // ---------- the buffer ----------

  class DirectoryBuffer {
    const initialCapacity: nat
    var capacity: nat
    var loMark: nat
    var hiMark: nat
    var buffer: array<Byte>  // of length 0 before the first fill

    ghost predicate Valid()
      reads this, buffer
    {
      && LO_BOUND <= initialCapacity <= HI_BOUND
      && loMark <= hiMark <= capacity == buffer.Length <= INT_MAX
      && loMark % 8 == 0 && (capacity - hiMark) % 4 == 0
      && Sound(buffer[..loMark], Entries(buffer, hiMark))
    }

    /** What the index denotes, last filled record first. */
    ghost function Listing(): seq<Option<Record>>
      reads this, buffer
      requires Valid()
    {
      Denote(buffer[..loMark], Entries(buffer, hiMark))
    }

    /** The listing can be searched: nothing is invalidated and the names are in order. */
    ghost predicate Ready()
      reads this, buffer
    {
      Valid() && (forall k :: 0 <= k < |Listing()| ==> Listing()[k].Some?) && Ordered(Present(Listing()))
    }

    lemma Parts()
      requires Valid()
      ensures LO_BOUND <= initialCapacity <= HI_BOUND && loMark % 8 == 0
      ensures loMark <= hiMark <= capacity == buffer.Length <= INT_MAX && (capacity - hiMark) % 4 == 0
      ensures Sound(buffer[..loMark], Entries(buffer, hiMark))
      ensures Listing() == Denote(buffer[..loMark], Entries(buffer, hiMark))
    {
    }

    lemma Whole()
      requires LO_BOUND <= initialCapacity <= HI_BOUND && loMark % 8 == 0
      requires loMark <= hiMark <= capacity == buffer.Length <= INT_MAX && (capacity - hiMark) % 4 == 0
      requires Sound(buffer[..loMark], Entries(buffer, hiMark)) && INVALID !in Entries(buffer, hiMark)
      ensures Valid() && Listing() == Denote(buffer[..loMark], Entries(buffer, hiMark))
      ensures forall k :: 0 <= k < |Listing()| ==> Listing()[k].Some?
      ensures Ordered(Present(Listing())) ==> Ready()
    {
      forall k | 0 <= k < |Entries(buffer, hiMark)| ensures IsRecord(buffer[..loMark], Entries(buffer, hiMark)[k]) {
        assert Entries(buffer, hiMark)[k] in Entries(buffer, hiMark);
      }
    }

    lemma Bounds()
      requires Valid()
      ensures initialCapacity > 0 && Used() >= 0
    {
    }

    lemma ReadyIsValid()
      requires Ready()
      ensures Valid()
    {
    }

    lemma NothingInvalidated()
      requires Valid() && forall k :: 0 <= k < |Listing()| ==> Listing()[k].Some?
      ensures INVALID !in Entries(buffer, hiMark)
    {
      hide Sound, U16At, RecordAt, Entries;
      var s := Entries(buffer, hiMark);
      forall k | 0 <= k < |s| ensures s[k] != INVALID {
        assert Listing()[k].Some?;
      }
    }

    /** A new buffer has no memory yet. */
    constructor (capacityHint: ULong)
      ensures Ready() && Listing() == [] && fresh(buffer)
      ensures initialCapacity == InitialCapacity(capacityHint) && capacity == Used() == 0
    {
      hide *;
      initialCapacity := InitialCapacity(capacityHint);
      capacity, loMark, hiMark := 0, 0, 0;
      buffer := new Byte[0];
      new;
      EmptyIsReady();
    }

    /** The bytes taken by the records and the index. */
    ghost function Used(): int
      reads this
    {
      loMark + capacity - hiMark
    }

    /** Acquiring the buffer with `Reset` empties it and keeps its memory. */
    method Reset()
      requires Valid()
      modifies this
      ensures Ready() && Listing() == [] && Used() == 0 && buffer == old(buffer) && capacity == old(capacity)
    {
      hide *;
      Parts();
      loMark := 0;
      hiMark := capacity;
      EmptyIsReady();
    }

    lemma EmptyIsReady()
      requires LO_BOUND <= initialCapacity <= HI_BOUND && loMark == 0 && hiMark == capacity == buffer.Length <= INT_MAX
      ensures Ready() && Listing() == [] && Used() == 0
    {
    }

    /** Adds a record in front of the listing, growing the arena as far as needed. */
    method Fill(dirInfo: Option<Record>, allocate: nat -> bool) returns (ok: bool, status: Status)
      requires Valid()
      requires dirInfo.Some? ==> SelfSized(dirInfo.value) && |dirInfo.value| >= DIR_INFO_SIZE
      requires forall n: nat :: allocate(n) ==> n <= INT_MAX
      modifies this, buffer
      ensures Valid() && (buffer == old(buffer) || fresh(buffer))
      ensures dirInfo.None? ==> !ok && status == InvalidParameter && buffer == old(buffer) && unchanged(this, buffer)
      ensures dirInfo.Some? ==> status == if ok then Success else InsufficientResources
      ensures dirInfo.Some? ==>
              (ok <==> Obtains(old(capacity), initialCapacity,
                               old(Used()) + AlignUp(|dirInfo.value|) + 4, allocate))
      ensures Listing() == if ok then [dirInfo] + old(Listing()) else old(Listing())
      ensures ok ==>
                && Used() == old(Used()) + AlignUp(|dirInfo.value|) + 4
                && capacity == Grown(old(capacity), initialCapacity, Used())
    {
      hide *;
      if dirInfo.None? {
        return false, InvalidParameter;
      }
      ok := FillRecord(dirInfo.value, allocate);
      status := if ok then Success else InsufficientResources;
    }

    method FillRecord(r: Record, allocate: nat -> bool) returns (ok: bool)
      requires Valid() && SelfSized(r) && |r| >= DIR_INFO_SIZE
      requires forall n: nat :: allocate(n) ==> n <= INT_MAX
      modifies this, buffer
      ensures Valid() && (buffer == old(buffer) || fresh(buffer))
      ensures ok <==> Obtains(old(capacity), initialCapacity, old(Used()) + AlignUp(|r|) + 4, allocate)
      ensures Listing() == if ok then [Some(r)] + old(Listing()) else old(Listing())
      ensures ok ==>
              Used() == old(Used()) + AlignUp(|r|) + 4 && capacity == Grown(old(capacity), initialCapacity, Used())
    {
      hide *;
      Bounds();
      ghost var need := Used() + AlignUp(|r|) + 4;
      while true
        invariant Valid() && (buffer == old(buffer) || fresh(buffer)) && initialCapacity > 0
        invariant Used() == old(Used()) && Listing() == old(Listing())
        invariant Obtains(capacity, initialCapacity, need, allocate) ==
                  Obtains(old(capacity), initialCapacity, need, allocate)
        invariant Grown(capacity, initialCapacity, need) == Grown(old(capacity), initialCapacity, need)
        decreases need - capacity
      {
        ObtainsStep(capacity, initialCapacity, need, allocate);
        ok := TryAdd(r);
        if ok {
          return;
        }
        var grown := Grow(allocate);
        if !grown {
          return;
        }
      }
    }

    /** The step of `Fill` that adds the record if there is room for it and for a new index entry. */
    method TryAdd(r: Record) returns (added: bool)
      requires Valid() && SelfSized(r) && |r| >= DIR_INFO_SIZE
      modifies this, buffer
      ensures Valid() && buffer == old(buffer) && capacity == old(capacity)
      ensures added <==> old(loMark) + AlignUp(|r|) + 4 <= old(hiMark)
      ensures added <==> old(Used()) + AlignUp(|r|) + 4 <= capacity
      ensures added ==> Listing() == [Some(r)] + old(Listing()) && Used() == old(Used()) + AlignUp(|r|) + 4
      ensures !added ==> unchanged(this) && Listing() == old(Listing())
    {
      hide Sound, Denote, IndexOf, U16At;
      ghost var mem := buffer[..];
      var limit := if hiMark > 4 then hiMark - 4 else hiMark;
      var lo;
      added, lo := AddXxxInfo(Some(r), buffer, limit, loMark);
      if added {
        assert Sound(mem[..loMark], IndexOf(mem, hiMark)) by { assert mem[..loMark] == old(buffer[..loMark]); }
        Extend(r, lo, mem);
      } else {
        assert buffer[..loMark] == buffer[..][..loMark] == old(buffer[..loMark]);
      }
    }

    /** The step of `Fill` that follows a successful copy: a new index entry, and the marks move. */
    method Extend(r: Record, lo: nat, ghost mem: seq<Byte>)
      requires LO_BOUND <= initialCapacity <= HI_BOUND
      requires loMark % 8 == 0 && (capacity - hiMark) % 4 == 0
      requires |mem| == capacity == buffer.Length <= INT_MAX
      requires lo == loMark + AlignUp(|r|) && lo + 4 <= hiMark <= capacity
      requires SelfSized(r) && |r| >= DIR_INFO_SIZE
      requires Sound(mem[..loMark], IndexOf(mem, hiMark))
      requires buffer[..] == Overwrite(mem, loMark, r)
      modifies this, buffer
      ensures Valid() && buffer == old(buffer) && capacity == old(capacity)
      ensures Listing() == [Some(r)] + old(Denote(mem[..loMark], IndexOf(mem, hiMark)))
      ensures Used() == old(Used()) + AlignUp(|r|) + 4
    {
      hide Sound, Denote, IndexOf, SelfSized, Overwrite, AlignUp;
      ghost var copied := buffer[..];
      SetEntry(buffer, hiMark - 4, 0, loMark);
      ExtendDenotes(mem, copied, buffer[..], loMark, lo, hiMark, r);
      hide Entries;
      loMark, hiMark := lo, hiMark - 4;
    }

    /** The step of `Fill` that finds more memory: the records stay where they are, the index moves to the new end. */
    method Grow(allocate: nat -> bool) returns (grown: bool)
      requires Valid()
      requires forall n: nat :: allocate(n) ==> n <= INT_MAX
      modifies this
      ensures Valid() && (buffer == old(buffer) || fresh(buffer))
      ensures grown <==> allocate(NextCapacity(old(capacity), initialCapacity))
      ensures !grown ==> unchanged(this)
      ensures grown ==> capacity == NextCapacity(old(capacity), initialCapacity)
      ensures Listing() == old(Listing())
      ensures loMark == old(loMark) && capacity - hiMark == old(capacity - hiMark) && Used() == old(Used())
      ensures buffer[..loMark] == old(buffer[..loMark]) && Entries(buffer, hiMark) == old(Entries(buffer, hiMark))
    {
      hide Sound, IndexOf;
      if buffer.Length == 0 {
        var newCapacity := initialCapacity;
        if !allocate(newCapacity) {
          return false;
        }
        buffer := new Byte[newCapacity](_ => 0);
        capacity, hiMark := newCapacity, newCapacity;
        assert Entries(buffer, hiMark) == old(Entries(buffer, hiMark));
        assert buffer[..loMark] == [] == old(buffer[..loMark]);
      } else {
        var newCapacity := if HI_BOUND > capacity then capacity * LO_FACTOR else capacity * HI_FACTOR;
        if !allocate(newCapacity) {
          return false;
        }
        var moved, newHiMark := Relocate(buffer, hiMark, newCapacity);
        AgreeWithin(moved[..], buffer[..], hiMark, 0, loMark);
        capacity, hiMark, buffer := newCapacity, newHiMark, moved;
      }
      return true;
    }

    /** What a file system does through a peek into the buffer: entry `k` no longer counts. */
    method Invalidate(k: nat)
      requires Valid() && k < |Listing()|
      modifies buffer
      ensures Valid() && Listing() == old(Listing())[k := None]
      ensures Entries(buffer, hiMark) == old(Entries(buffer, hiMark))[k := 0xFFFF_FFFF]
    {
      hide U16At, RecordAt, Le;
      ghost var rec, s, arena := buffer[..loMark], Entries(buffer, hiMark), buffer[..];
      SetEntry(buffer, hiMark, k, INVALID);
      AgreeWithin(buffer[..], arena, hiMark, 0, loMark);
      InvalidateDenotes(rec, s, k);
    }

    /** Sorts an index without invalidated entries. */
    method Sort()
      requires Valid() && forall k :: 0 <= k < |Listing()| ==> Listing()[k].Some?
      modifies buffer
      ensures Ready()
      ensures multiset(Present(Listing())) == old(multiset(Present(Listing())))
    {
      hide *;
      Parts();
      NothingInvalidated();
      ghost var rec, s, wide, arena := buffer[..loMark], Entries(buffer, hiMark), buffer[..hiMark], buffer[..];
      SliceOfTake(arena, hiMark, 0, loMark);
      WiderArena(rec, wide, s);
      var count := (capacity - hiMark) / 4;
      QSort(buffer, hiMark, 0, count - 1);
      AgreeWithin(buffer[..], arena, hiMark, 0, loMark);
      SortDenotes(rec, wide, s, Entries(buffer, hiMark));
      Whole();
    }

    /** Drops what was invalidated and sorts the rest; the lock is released after that. */
    method Release()
      requires Valid()
      modifies this`hiMark, buffer
      ensures Ready()
      ensures multiset(Present(Listing())) == old(multiset(Present(Listing())))
    {
      hide *;
      Parts();
      ghost var rec, s0, hi, arena := buffer[..loMark], Entries(buffer, hiMark), hiMark, buffer[..];
      CompactionDenotes(rec, s0);
      var j := Compact(buffer, hiMark);
      AgreeWithin(buffer[..], arena, hi, 0, loMark);
      hiMark := hiMark + 4 * j;
      Whole();
      Sort();
    }

    /** The records of a buffer that is ready, in the order of their names. */
    ghost function Records(): seq<Record>
      reads this, buffer
      requires Ready()
    {
      Present(Listing())
    }

    lemma RecordsArePresent()
      requires Ready()
      ensures Records() == Present(Listing())
    {
    }

    lemma ReadyEntries()
      requires Ready()
      ensures |Records()| == |Entries(buffer, hiMark)|
      ensures forall k :: 0 <= k < |Records()| ==>
                IsRecord(buffer[..loMark], Entries(buffer, hiMark)[k]) &&
                Records()[k] == RecordAt(buffer[..loMark], Entries(buffer, hiMark)[k])
    {
      var rec, s := buffer[..loMark], Entries(buffer, hiMark);
      assert Listing() == Denote(rec, s);
      forall x | x in s ensures IsRecord(rec, x) {
        var k :| 0 <= k < |s| && s[k] == x;
        assert Listing()[k].Some?;
      }
      SortedDenotes(rec, s);
    }

    lemma RecordsAreWhole()
      requires Ready()
      ensures AllSelfSized(Records())
    {
      ReadyEntries();
      hide *;
      ghost var rec, s, recs := buffer[..loMark], Entries(buffer, hiMark), Records();
      RecordsWhole(rec, s, recs);
    }

    lemma ReadyCount()
      requires Ready()
      ensures Ordered(Records()) && |Records()| == (capacity - hiMark) / 4
    {
      ReadyEntries();
    }

    /** Reads the record an entry stands for. */
    method ReadEntry(k: nat) returns (r: Record)
      requires Ready() && k < |Records()|
      ensures r == Records()[k] && SelfSized(r) && |r| >= DIR_INFO_SIZE
    {
      ReadyEntries();
      var o := GetEntry(buffer, hiMark, k);
      r := RecordAt(buffer[..loMark], o);
      assert U16At(r, 0) == U16At(buffer[..loMark], o);
    }

    /** Binary search for the last record whose name is not after the marker; -1 when there is none. */
    method Search(marker: Wide) returns (found: bool, indexNum: int)
      requires Ready()
      ensures -1 <= indexNum < |Records()| && ResumesAt(Records(), marker, indexNum + 1)
      ensures found <==> exists k :: 0 <= k < |Records()| && NameEqual(NameIn(Records()[k]), marker)
      ensures found ==> indexNum >= 0 && NameEqual(NameIn(Records()[indexNum]), marker)
    {
      ReadyCount();
      ghost var recs := Records();
      var count := (capacity - hiMark) / 4;
      hide NameLess, NameEqual, NameIn, Records, Ready, Valid, Ordered, ResumesAt;
      var lo, hi: int := 0, count - 1;
      while lo <= hi
        invariant 0 <= lo <= hi + 1 <= |recs|
        invariant forall k :: 0 <= k < lo ==> NameLess(NameIn(recs[k]), marker)
        invariant forall k :: hi < k < |recs| ==> NameLess(marker, NameIn(recs[k]))
      {
        var mi := (lo + hi) / 2;
        var r := ReadEntry(mi);
        var c := FileNameCmp(NameIn(r), marker);
        SearchStep(recs, marker, mi);
        if 0 > c {
          lo := mi + 1;
        } else if 0 < c {
          hi := mi - 1;
        } else {
          return true, mi;
        }
      }
      SearchFails(recs, marker, lo);
      return false, hi;
    }

    method AddEntry(k: nat, page: array<Byte>, length: nat, transferred: nat) returns (ok: bool, transferred': nat)
      requires Ready() && buffer != page && k < |Records()| && length <= page.Length
      modifies page
      ensures Ready() && Records() == old(Records())
      ensures var room := AlignUp(|Records()[k]|);
              && (ok <==> transferred + room <= length)
              && transferred' == (if ok then transferred + room else transferred)
              && page[..] == if ok then Overwrite(old(page[..]), transferred, Records()[k]) else old(page[..])
    {
      hide Overwrite, SelfSized;
      var r := ReadEntry(k);
      ok, transferred' := AddXxxInfo(Some(r), page, length, transferred);
    }

    /** Writes the records from `from` on, as long as they fit; `done` says that none is left. */
    method ReadFrom(from: nat, page: array<Byte>, length: nat, transferred: nat)
      returns (transferred': nat, done: bool)
      requires Ready() && buffer != page && from <= |Records()|
      requires transferred <= length <= page.Length
      modifies page
      ensures done ==>
              transferred' <= length && Written(old(page[..]), page[..], transferred, Records()[from..], transferred')
      ensures !done ==>
                && IsPage(page[..], transferred, Records()[from..], length, transferred')
                && SameOutside(old(page[..]), page[..], transferred, transferred')
    {
      hide *;
      NothingWritten(page[..], transferred);
      ghost var before, recs := page[..], Records();
      var indexNum := from;
      transferred' := transferred;
      var count := Count();
      assert recs[from..from] == [];
      while indexNum < count
        invariant from <= indexNum <= count == |recs|
        invariant Ready() && Records() == recs
        invariant transferred <= transferred' <= length
        invariant Written(before, page[..], transferred, recs[from..indexNum], transferred')
      {
        ghost var was, e := page[..], transferred';
        var ok;
        ok, transferred' := AddEntry(indexNum, page, length, transferred');
        if !ok {
          WritingStops(before, page[..], transferred, recs, from, indexNum, length, transferred');
          return transferred', false;
        }
        WritingGrows(before, was, page[..], transferred, recs, from, indexNum, e);
        indexNum := indexNum + 1;
      }
      assert recs[from..|recs|] == recs[from..];
      done := true;
    }

    static method AddEndMark(page: array<Byte>, length: nat, transferred: nat) returns (ok: bool, transferred': nat)
      requires length <= page.Length
      modifies page
      ensures ok <==> transferred + 2 <= length
      ensures transferred' == if ok then transferred + 2 else transferred
      ensures page[..] == if ok then Overwrite(old(page[..]), transferred, END_MARK) else old(page[..])
    {
      ok, transferred' := AddXxxInfo(None, page, length, transferred);
    }

    /** Writes a page of the listing: the records after the marker, as many as fit, and an end mark after the last one.
        The marker ends at its first NUL. */
    static method Read(dirBuffer: DirectoryBuffer?, marker: Option<Wide>, page: array<Byte>, length: nat,
                       transferred: nat)
      returns (transferred': nat, ghost from: nat)
      requires dirBuffer != null ==> dirBuffer.Ready() && dirBuffer.buffer != page
      requires transferred <= length <= page.Length
      modifies page
      ensures var recs := if dirBuffer == null then [] else dirBuffer.Records();
              && from <= |recs| && (if marker.None? then from == 0 else ResumesAt(recs, BeforeNul(marker.value), from))
              && IsPage(page[..], transferred, recs[from..], length, transferred')
      ensures transferred <= transferred' <= page.Length && page[..transferred] == old(page[..transferred])
      ensures page[transferred'..] == old(page[..])[transferred'..]
    {
      hide *;
      NothingWritten(page[..], transferred);
      EmptyResumes(marker);
      ghost var before := page[..];
      ghost var rest := [];
      transferred', from := transferred, 0;
      if dirBuffer != null {
        var indexNum: int := 0;
        if marker.Some? {
          var found;
          found, indexNum := dirBuffer.Search(BeforeNul(marker.value));
          indexNum := indexNum + 1;
        }
        from := indexNum;
        assert marker.Some? ==> ResumesAt(dirBuffer.Records(), BeforeNul(marker.value), from);
        rest := dirBuffer.Records()[from..];
        var done;
        transferred', done := dirBuffer.ReadFrom(indexNum, page, length, transferred);
        if !done {
          OutsideIs(before, page[..], transferred, transferred');
          return;
        }
      }
      ghost var was, e := page[..], transferred';
      var ok;
      ok, transferred' := AddEndMark(page, length, transferred');
      WritingEnds(before, was, page[..], transferred, rest, length, e);
      OutsideIs(before, page[..], transferred, transferred');
      assert dirBuffer != null ==> dirBuffer.Records()[from..] == rest;
    }

    method Count() returns (count: nat)
      requires Ready()
      ensures count == |Records()|
    {
      ReadyEntries();
      count := (capacity - hiMark) / 4;
    }
  }
}
