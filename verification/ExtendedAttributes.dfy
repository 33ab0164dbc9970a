/** Lists of extended attributes: each entry holds the offset of the next one, and the last entry holds 0. */
module ExtendedAttributes {
  import opened Memory

  type Ea = seq<Byte>

  const EA_NAME_OFFSET: nat := 8                    // of the name in an entry

  /** The size of an entry, from its name length and its value length: the name is followed by a NUL. */
  function EaSize(ea: seq<Byte>): (size: nat)
    requires |ea| >= EA_NAME_OFFSET
    ensures EA_NAME_OFFSET < size < 0x2_0000
  {
    EA_NAME_OFFSET + ea[5] as int + 1 + U16At(ea, 6)
  }

  predicate WholeEa(ea: Ea)
  {
    |ea| >= EA_NAME_OFFSET && |ea| == EaSize(ea)
  }

  ghost predicate AllWhole(eas: seq<Ea>)
  {
    forall k :: 0 <= k < |eas| ==> WholeEa(eas[k])
  }

  /** An entry as a caller makes it up: flags, the lengths of name and value, the name with a NUL behind it, and the
      value. */
  function NewEa(flags: Byte, name: seq<Byte>, value: seq<Byte>): (ea: Ea)
    requires |name| < 0x100 && |value| < 0x1_0000
  {
    [0, 0, 0, 0, flags, |name|, |value| % 0x100, |value| / 0x100] + name + [0] + value
  }

  /** It is whole, and its size is what its lengths say. */
  lemma NewEaIsWhole(flags: Byte, name: seq<Byte>, value: seq<Byte>)
    requires |name| < 0x100 && |value| < 0x1_0000
    ensures var ea := NewEa(flags, name, value);
            && WholeEa(ea) && EaSize(ea) == |ea| == 9 + |name| + |value|
            && ea[8..8 + |name|] == name && ea[9 + |name|..] == value
  {
    var ea := NewEa(flags, name, value);
    var head: seq<Byte> := [0, 0, 0, 0, flags, |name|, |value| % 0x100, |value| / 0x100];
    assert ea == head + name + [0] + value;
    assert ea[5] == head[5] && ea[6] == head[6] && ea[7] == head[7];
  }

  /** The entry with the given offset of the next one. */
  function WithNext(ea: Ea, next: nat): (r: Ea)
    requires |ea| >= 4 && next < 0x1_0000_0000
    ensures |r| == |ea| && U32At(r, 0) == next && r[4..] == ea[4..]
  {
    U32Bytes(next) + ea[4..]
  }

  // ---------- the list ----------

  /** The next offset of the first of the entries: the last one has none once the list is final. */
  function NextOf(eas: seq<Ea>, final: bool): nat
    requires eas != []
  {
    if final && |eas| == 1 then 0 else AlignUp4(|eas[0]|)
  }

  ghost predicate EntryIs(mem: seq<Byte>, p: nat, ea: Ea, next: nat)
  {
    |ea| >= 4 && next < 0x1_0000_0000 && p + |ea| <= |mem| && mem[p..p + |ea|] == WithNext(ea, next)
  }

  /** The entries lie in `mem` from offset `p` on, each at a multiple of 4 behind the one before, and end at `e`. */
  ghost predicate ListAt(mem: seq<Byte>, p: nat, eas: seq<Ea>, e: nat, final: bool)
    decreases |eas|
  {
    eas != [] && WholeEa(eas[0]) && p % 4 == 0 && EntryIs(mem, p, eas[0], NextOf(eas, final))
    && (if |eas| == 1 then e == p + |eas[0]| else ListAt(mem, p + AlignUp4(|eas[0]|), eas[1..], e, final))
  }

  ghost predicate IsList(mem: seq<Byte>, eas: seq<Ea>, transferred: nat, final: bool)
  {
    if eas == [] then transferred == 0 else ListAt(mem, 0, eas, transferred, final)
  }

  lemma {:induction false} ListEnd(mem: seq<Byte>, p: nat, eas: seq<Ea>, e: nat, final: bool)
    requires ListAt(mem, p, eas, e, final)
    ensures p + |eas[0]| <= e <= |mem| && (|eas| > 1 ==> p + AlignUp4(|eas[0]|) < e)
    decreases |eas|
  {
    if |eas| > 1 { ListEnd(mem, p + AlignUp4(|eas[0]|), eas[1..], e, final); }
  }

  lemma EntryFrame(mem: seq<Byte>, mem': seq<Byte>, p: nat, ea: Ea, next: nat)
    requires |mem| == |mem'| && p + |ea| <= |mem| && mem[p..p + |ea|] == mem'[p..p + |ea|]
    ensures EntryIs(mem, p, ea, next) <==> EntryIs(mem', p, ea, next)
  {
  }

  /** Only the bytes between the two ends matter. */
  lemma {:induction false} ListFrame(mem: seq<Byte>, mem': seq<Byte>, p: nat, eas: seq<Ea>, e: nat, final: bool)
    requires ListAt(mem, p, eas, e, final) && |mem| == |mem'| && p <= e <= |mem| && mem[p..e] == mem'[p..e]
    ensures ListAt(mem', p, eas, e, final)
    decreases |eas|
  {
    hide WholeEa, EntryIs;
    ListEnd(mem, p, eas, e, final);
    var q := p + |eas[0]|;
    SliceOfSlice(mem, p, e, 0, q - p);
    SliceOfSlice(mem', p, e, 0, q - p);
    EntryFrame(mem, mem', p, eas[0], NextOf(eas, final));
    if |eas| > 1 {
      var n := p + AlignUp4(|eas[0]|);
      SliceOfSlice(mem, p, e, n - p, e - p);
      SliceOfSlice(mem', p, e, n - p, e - p);
      ListFrame(mem, mem', n, eas[1..], e, final);
    }
  }

  lemma Align4Moves(p: nat, n: nat)
    ensures p % 4 == 0 ==> AlignUp4(p + n) == p + AlignUp4(n)
    ensures AlignUp4(p) % 4 == 0
  {
  }

  lemma {:induction false} ListAppend(mem: seq<Byte>, p: nat, eas: seq<Ea>, e: nat, ea: Ea)
    requires ListAt(mem, p, eas, e, false) && WholeEa(ea)
    requires EntryIs(mem, AlignUp4(e), ea, AlignUp4(|ea|))
    ensures ListAt(mem, p, eas + [ea], AlignUp4(e) + |ea|, false)
    decreases |eas|
  {
    hide EntryIs, WholeEa, AlignUp4;
    assert (eas + [ea])[0] == eas[0] && (eas + [ea])[1..] == eas[1..] + [ea];
    Align4Moves(p, |eas[0]|);
    Align4Moves(e, 0);
    if |eas| == 1 {
      assert ListAt(mem, AlignUp4(e), [ea], AlignUp4(e) + |ea|, false);
    } else {
      ListAppend(mem, p + AlignUp4(|eas[0]|), eas[1..], e, ea);
    }
  }

  /** Where the last entry is. */
  function LastAt(p: nat, eas: seq<Ea>): (q: nat)
    requires eas != []
    ensures q >= p
    decreases |eas|
  {
    if |eas| == 1 then p else LastAt(p + AlignUp4(|eas[0]|), eas[1..])
  }

  // ---------- writing ----------

  method PutNext(buf: array<Byte>, p: nat, next: nat)
    requires p + 4 <= buf.Length && next < 0x1_0000_0000
    modifies buf
    ensures buf[..] == old(buf[..])[..p] + U32Bytes(next) + old(buf[..])[p + 4..]
  {
    var bytes := U32Bytes(next);
    buf[p], buf[p + 1], buf[p + 2], buf[p + 3] := bytes[0], bytes[1], bytes[2], bytes[3];
  }

  method GetNext(buf: array<Byte>, p: nat) returns (next: nat)
    requires p + 4 <= buf.Length
    ensures next == U32At(buf[..], p)
  {
    next := buf[p] as int + 0x100 * buf[p + 1] as int + 0x1_0000 * buf[p + 2] as int + 0x100_0000 * buf[p + 3] as int;
  }

  /** Adds an entry if there is room for it. */
  method AddEa(ea: Ea, buf: array<Byte>, length: nat, transferred: nat, ghost eas: seq<Ea>)
    returns (ok: bool, transferred': nat)
    requires WholeEa(ea) && length <= buf.Length && IsList(buf[..], eas, transferred, false)
    modifies buf
    ensures ok <==> AlignUp4(transferred) + |ea| <= length
    ensures ok ==> transferred' == AlignUp4(transferred) + |ea| && IsList(buf[..], eas + [ea], transferred', false)
    ensures !ok ==> transferred' == transferred && buf[..] == old(buf[..])
    ensures forall k :: transferred' <= k < buf.Length ==> buf[k] == old(buf[k])
  {
    hide *;
    WholeIs(ea);
    var p := AlignUp4(transferred);
    var size := EaSize(ea);
    if length < p + size {
      return false, transferred;
    }
    ghost var was := buf[..];
    forall i | 0 <= i < size {
      buf[p + i] := ea[i];
    }
    assert buf[p..p + size] == ea && forall k :: p + size <= k < buf.Length ==> buf[k] == was[k];
    ghost var copied := buf[..];
    PutNext(buf, p, AlignUp4(size));
    EntryWritten(was, copied, buf[..], p, ea);
    ListGrows(was, buf[..], eas, transferred, ea);
    return true, p + size;
  }

  lemma WholeIs(ea: Ea)
    requires WholeEa(ea)
    ensures 8 == EA_NAME_OFFSET <= |ea| && |ea| == EaSize(ea)
  {
  }

  /** An entry written behind the list is added to it. */
  lemma ListGrows(was: seq<Byte>, mem: seq<Byte>, eas: seq<Ea>, transferred: nat, ea: Ea)
    requires WholeEa(ea) && IsList(was, eas, transferred, false) && |was| == |mem| && AlignUp4(transferred) <= |mem|
    requires EntryIs(mem, AlignUp4(transferred), ea, AlignUp4(|ea|))
    requires mem[..AlignUp4(transferred)] == was[..AlignUp4(transferred)]
    ensures IsList(mem, eas + [ea], AlignUp4(transferred) + |ea|, false)
  {
    hide ListAt, EntryIs, WholeEa, EaSize;
    var p := AlignUp4(transferred);
    if eas != [] {
      ListEnd(was, 0, eas, transferred, false);
      SliceOfTake(was, p, 0, transferred);
      SliceOfTake(mem, p, 0, transferred);
      ListFrame(was, mem, 0, eas, transferred, false);
      ListAppend(mem, 0, eas, transferred, ea);
    } else {
      assert p == 0 && eas + [ea] == [ea];
      OneEntry(mem, ea);
    }
  }

  lemma OneEntry(mem: seq<Byte>, ea: Ea)
    requires WholeEa(ea) && EntryIs(mem, 0, ea, AlignUp4(|ea|))
    ensures ListAt(mem, 0, [ea], |ea|, false)
  {
  }

  lemma EntryWritten(was: seq<Byte>, copied: seq<Byte>, after: seq<Byte>, p: nat, ea: Ea)
    requires WholeEa(ea) && |was| == |copied| && p + |ea| <= |was|
    requires copied[p..p + |ea|] == ea && copied[..p] == was[..p]
    requires after == copied[..p] + U32Bytes(AlignUp4(|ea|)) + copied[p + 4..]
    ensures |after| == |was| && EntryIs(after, p, ea, AlignUp4(|ea|)) && after[..p] == was[..p]
  {
    var q := p + |ea|;
    assert after[p..q] == U32Bytes(AlignUp4(|ea|)) + copied[p + 4..q];
    SliceOfSlice(copied, p, q, 4, q - p);
    assert copied[p..q][4..] == ea[4..];
  }

  /** Makes the list final: walks to the last entry and takes its next offset away. */
  method FinishEa(buf: array<Byte>, transferred: nat, ghost eas: seq<Ea>)
    requires IsList(buf[..], eas, transferred, false)
    modifies buf
    ensures IsList(buf[..], eas, transferred, true)
    ensures forall k :: transferred <= k < buf.Length ==> buf[k] == old(buf[k])
  {
    hide EntryIs, ListAt, WholeEa, U32At;
    if EA_NAME_OFFSET <= transferred {
      ghost var was := buf[..];
      ListEnd(was, 0, eas, transferred, false);
      var p: nat := 0;
      ghost var rest := eas;
      var next := GetNext(buf, p);
      FirstNext(was, p, rest, transferred, false);
      while transferred > p + next
        invariant rest != [] && p + 4 <= transferred <= buf.Length && buf[..] == was &&
                  ListAt(was, p, rest, transferred, false)
        invariant LastAt(p, rest) == LastAt(0, eas) && next == AlignUp4(|rest[0]|)
        invariant transferred > p + next <==> |rest| > 1
        decreases |rest|
      {
        NextEntry(was, p, rest, transferred, false);
        p := p + next;
        rest := rest[1..];
        FirstNext(was, p, rest, transferred, false);
        next := GetNext(buf, p);
      }
      PutNext(buf, p, 0);
      FinishedList(was, buf[..], 0, eas, transferred);
    } else {
      ShortList(buf[..], eas, transferred);
    }
  }

  lemma ShortList(mem: seq<Byte>, eas: seq<Ea>, transferred: nat)
    requires IsList(mem, eas, transferred, false) && transferred < EA_NAME_OFFSET
    ensures eas == []
  {
    if eas != [] { ListEnd(mem, 0, eas, transferred, false); }
  }

  /** The list goes on behind its first entry. */
  lemma NextEntry(mem: seq<Byte>, p: nat, eas: seq<Ea>, e: nat, final: bool)
    requires ListAt(mem, p, eas, e, final)
    ensures |eas| > 1 ==> ListAt(mem, p + AlignUp4(|eas[0]|), eas[1..], e, final) &&
                          LastAt(p, eas) == LastAt(p + AlignUp4(|eas[0]|), eas[1..])
    ensures |eas| == 1 ==> e == p + |eas[0]|
    ensures WholeEa(eas[0]) && NextOf(eas, final) < 0x1_0000_0000 && p < e
  {
    ListEnd(mem, p, eas, e, final);
  }

  /** The first entry's next offset leads past the end exactly if the entry is the last one. */
  lemma FirstNext(mem: seq<Byte>, p: nat, eas: seq<Ea>, e: nat, final: bool)
    requires ListAt(mem, p, eas, e, final)
    ensures eas != [] && p + 4 <= e <= |mem| && U32At(mem, p) == NextOf(eas, final)
    ensures e > p + AlignUp4(|eas[0]|) <==> |eas| > 1
  {
    ListEnd(mem, p, eas, e, final);
    var entry := mem[p..p + |eas[0]|];
    assert entry[0] == mem[p] && entry[1] == mem[p + 1] && entry[2] == mem[p + 2] && entry[3] == mem[p + 3];
  }

  lemma {:induction false} FinishedList(was: seq<Byte>, mem: seq<Byte>, p: nat, eas: seq<Ea>, e: nat)
    requires ListAt(was, p, eas, e, false)
    requires LastAt(p, eas) + 4 <= |was| && mem == was[..LastAt(p, eas)] + U32Bytes(0) + was[LastAt(p, eas) + 4..]
    ensures ListAt(mem, p, eas, e, true)
    decreases |eas|
  {
    if |eas| == 1 {
      LastFinished(was, mem, p, eas[0]);
    } else {
      assert LastAt(p, eas) >= p + AlignUp4(|eas[0]|);
      assert mem[p..p + |eas[0]|] == was[p..p + |eas[0]|];
      assert NextOf(eas, true) == NextOf(eas, false);
      FinishedList(was, mem, p + AlignUp4(|eas[0]|), eas[1..], e);
    }
  }

  lemma LastFinished(was: seq<Byte>, mem: seq<Byte>, p: nat, ea: Ea)
    requires EntryIs(was, p, ea, AlignUp4(|ea|)) && mem == was[..p] + U32Bytes(0) + was[p + 4..]
    ensures EntryIs(mem, p, ea, 0)
  {
    var q := p + |ea|;
    SliceOfSlice(was, p, q, 4, q - p);
    assert was[p..q][4..] == ea[4..];
    SliceWritten(was, mem, p, q);
  }

  /** The part of `mem` from `p` to `q`, where the first four bytes are new. */
  lemma SliceWritten(was: seq<Byte>, mem: seq<Byte>, p: nat, q: nat)
    requires p + 4 <= q <= |was| && mem == was[..p] + U32Bytes(0) + was[p + 4..]
    ensures mem[p..q] == U32Bytes(0) + was[p + 4..q]
  {
    hide U32Bytes;
    var zero := U32Bytes(0);
    forall k | 0 <= k < q - p ensures mem[p..q][k] == (zero + was[p + 4..q])[k] {
      assert mem[p + k] == if k < 4 then zero[k] else was[p + k];
    }
  }

  // ---------- reading ----------

  /** The entry at `p`. */
  function EntryAt(mem: seq<Byte>, p: nat): Ea
  {
    if p + EA_NAME_OFFSET <= |mem| && p + EaSize(mem[p..]) <= |mem| then mem[p..p + EaSize(mem[p..])] else []
  }

  /** The entries as a reader sees them in a final list. */
  ghost function Seen(eas: seq<Ea>): (seen: seq<Ea>)
    requires AllWhole(eas)
    ensures |seen| == |eas| && forall k :: 0 <= k < |eas| ==> |seen[k]| == |eas[k]|
  {
    if eas == [] then [] else
      assert WholeEa(eas[0]);
      [WithNext(eas[0], NextOf(eas, true))] + Seen(eas[1..])
  }

  ghost predicate Accepted(seen: seq<Ea>, accept: Ea -> bool)
  {
    forall k :: 0 <= k < |seen| ==> accept(seen[k])
  }

  lemma NothingSeen(accept: Ea -> bool)
    ensures AllWhole([]) && Seen([]) == [] && Until([], accept) == [] && Accepted([], accept)
  {
  }

  /** Up to the first entry that is not accepted. */
  ghost function Until(seen: seq<Ea>, accept: Ea -> bool): seq<Ea>
  {
    if seen == [] then [] else [seen[0]] + if accept(seen[0]) then Until(seen[1..], accept) else []
  }

  /** They are all there are, or the first ones up to one that is not accepted. */
  lemma {:induction false} UntilIs(seen: seq<Ea>, accept: Ea -> bool)
    ensures var n := |Until(seen, accept)|;
            && n <= |seen| && Until(seen, accept) == seen[..n] && (forall k :: 0 <= k < n - 1 ==> accept(seen[k]))
            && (if n == |seen| then true else n > 0 && !accept(seen[n - 1]))
  {
    if seen != [] && accept(seen[0]) { UntilIs(seen[1..], accept); }
  }

  lemma {:induction false} ListIsWhole(mem: seq<Byte>, p: nat, eas: seq<Ea>, e: nat, final: bool)
    requires ListAt(mem, p, eas, e, final)
    ensures AllWhole(eas)
    decreases |eas|
  {
    if |eas| > 1 {
      ListIsWhole(mem, p + AlignUp4(|eas[0]|), eas[1..], e, final);
      assert forall k :: 1 <= k < |eas| ==> eas[k] == eas[1..][k - 1];
    }
  }

  lemma FirstEntry(mem: seq<Byte>, p: nat, eas: seq<Ea>, e: nat)
    requires ListAt(mem, p, eas, e, true)
    ensures p + EA_NAME_OFFSET <= |mem| && EntryAt(mem, p) == WithNext(eas[0], NextOf(eas, true))
  {
    var entry := mem[p..p + |eas[0]|];
    var t := entry[4..];
    assert t == eas[0][4..];
    assert t[1] == entry[5] == mem[p + 5] && t[2] == entry[6] == mem[p + 6] && t[3] == entry[7] == mem[p + 7];
    assert eas[0][4..][1] == eas[0][5] && eas[0][4..][2] == eas[0][6] && eas[0][4..][3] == eas[0][7];
  }

  /** Shows the entries of a final list to `accept`, in order, until one is not accepted. */
  method EnumerateEa(buf: array<Byte>, length: nat, accept: Ea -> bool, ghost eas: seq<Ea>)
    returns (visited: seq<Ea>, ok: bool)
    requires IsList(buf[..], eas, length, true)
    ensures AllWhole(eas)
    ensures visited == Until(Seen(eas), accept)
    ensures ok <==> Accepted(Seen(eas), accept)
  {
    hide *;
    NothingSeen(accept);
    ListStarts(buf[..], eas, length);
    visited, ok := [], true;
    var p: nat := 0;
    ghost var rest, tail := eas, Until(Seen(eas), accept);
    while length > p && ok
      invariant ok ==> if rest == [] then p == length else ListAt(buf[..], p, rest, length, true)
      invariant AllWhole(rest)
      invariant Until(Seen(eas), accept) == visited + tail && tail == if ok then Until(Seen(rest), accept) else []
      invariant Accepted(Seen(eas), accept) == (ok && Accepted(Seen(rest), accept))
      decreases |rest|, ok
    {
      var next;
      ok, next := Show(buf, length, p, accept, rest);
      tail := if ok then Until(Seen(rest[1..]), accept) else [];
      Moved(visited, EntryAt(buf[..], p), tail);
      visited := visited + [EntryAt(buf[..], p)];
      p := if next != 0 then p + next else length;
      rest := rest[1..];
    }
    if ok && rest != [] { NextEntry(buf[..], p, rest, length, true); }
  }

  lemma Moved(visited: seq<Ea>, entry: Ea, tail: seq<Ea>)
    ensures visited + ([entry] + tail) == visited + [entry] + tail
  {
  }

  lemma ListStarts(mem: seq<Byte>, eas: seq<Ea>, length: nat)
    requires IsList(mem, eas, length, true)
    ensures AllWhole(eas)
    ensures if eas == [] then length == 0 else ListAt(mem, 0, eas, length, true)
  {
    if eas != [] { ListIsWhole(mem, 0, eas, length, true); }
  }

  /** One round: shows the entry at `p` and reads its next offset. */
  method Show(buf: array<Byte>, length: nat, p: nat, accept: Ea -> bool, ghost rest: seq<Ea>)
    returns (ok: bool, next: nat)
    requires rest != [] && ListAt(buf[..], p, rest, length, true) && AllWhole(rest)
    ensures ok == accept(EntryAt(buf[..], p)) && AllWhole(rest[1..])
    ensures Accepted(Seen(rest), accept) == (ok && Accepted(Seen(rest[1..]), accept))
    ensures Until(Seen(rest), accept) == [EntryAt(buf[..], p)] + if ok then Until(Seen(rest[1..]), accept) else []
    ensures if |rest| == 1 then next == 0 else next != 0 && ListAt(buf[..], p + next, rest[1..], length, true)
  {
    hide ListAt, EntryIs, WholeEa, EntryAt, U32At, NextOf, WithNext;
    FirstNext(buf[..], p, rest, length, true);
    NextEntry(buf[..], p, rest, length, true);
    FirstEntry(buf[..], p, rest, length);
    NextIsZero(rest);
    var entry := EntryAt(buf[..], p);
    assert Seen(rest)[0] == entry && Seen(rest)[1..] == Seen(rest[1..]);
    ok := accept(entry);
    next := GetNext(buf, p);
  }

  lemma NextIsZero(eas: seq<Ea>)
    requires eas != [] && WholeEa(eas[0])
    ensures NextOf(eas, true) == if |eas| == 1 then 0 else AlignUp4(|eas[0]|)
    ensures AlignUp4(|eas[0]|) > 0
  {
  }

  /** What is seen is what was added: only the offsets differ, and only the last one is 0. */
  lemma {:induction false} SeenIsAdded(eas: seq<Ea>)
    requires AllWhole(eas)
    ensures forall k :: 0 <= k < |eas| ==>
              Seen(eas)[k][4..] == eas[k][4..] && (U32At(Seen(eas)[k], 0) == 0 <==> k == |eas| - 1)
  {
    if eas != [] { SeenIsAdded(eas[1..]); }
  }

  lemma {:induction false} AllAccepted(seen: seq<Ea>, accept: Ea -> bool)
    requires Accepted(seen, accept)
    ensures Until(seen, accept) == seen
  {
    if seen != [] { AllAccepted(seen[1..], accept); }
  }

  /** The last entry of a final list has no next offset. */
  lemma {:induction false} FinalWalkStays(mem: seq<Byte>, p: nat, eas: seq<Ea>, e: nat)
    requires ListAt(mem, p, eas, e, true)
    ensures LastAt(p, eas) + 4 <= |mem| && U32At(mem, LastAt(p, eas)) == 0 && LastAt(p, eas) < e
    decreases |eas|
  {
    FirstNext(mem, p, eas, e, true);
    ListEnd(mem, p, eas, e, true);
    if |eas| > 1 { FinalWalkStays(mem, p + AlignUp4(|eas[0]|), eas[1..], e); }
  }

  // ---------- making a list final twice ----------

  /** Where the next offset at `p` leads. */
  function NextAt(mem: seq<Byte>, p: nat): nat
  {
    if p + 4 <= |mem| then p + U32At(mem, p) else p
  }

  /** Where the walk to the last entry is after `n` steps from `p`. */
  function WalkedTo(mem: seq<Byte>, p: nat, n: nat): nat
    decreases n
  {
    if n == 0 then p else WalkedTo(mem, NextAt(mem, p), n - 1)
  }

  /** Making a list final a second time does not end: however many steps the walk has taken, it goes on. */
  lemma {:induction false} FinalWalkNeverEnds(mem: seq<Byte>, p: nat, eas: seq<Ea>, e: nat, n: nat)
    requires ListAt(mem, p, eas, e, true)
    ensures var q := WalkedTo(mem, p, n); q + 4 <= |mem| && NextAt(mem, q) < e
    decreases n
  {
    hide ListAt, NextOf, U32At;
    FirstNext(mem, p, eas, e, true);
    NextEntry(mem, p, eas, e, true);
    NextIsZero(eas);
    if n > 0 {
      if |eas| == 1 { FinalWalkNeverEnds(mem, p, eas, e, n - 1); }
      else { FinalWalkNeverEnds(mem, p + AlignUp4(|eas[0]|), eas[1..], e, n - 1); }
    }
  }

  /** In a list that is not final the walk ends, at the last entry, after one step less than there are entries. */
  lemma {:induction false} OpenWalkEnds(mem: seq<Byte>, p: nat, eas: seq<Ea>, e: nat)
    requires ListAt(mem, p, eas, e, false)
    ensures var q := WalkedTo(mem, p, |eas| - 1); q == LastAt(p, eas) && NextAt(mem, q) >= e
    decreases |eas|
  {
    hide ListAt, U32At;
    FirstNext(mem, p, eas, e, false);
    NextEntry(mem, p, eas, e, false);
    if |eas| > 1 { OpenWalkEnds(mem, p + AlignUp4(|eas[0]|), eas[1..], e); }
  }

  // ---------- the whole life of a list ----------

  /** Where the list of the attributes ends. */
  function EndOf(eas: seq<Ea>): nat
  {
    if eas == [] then 0 else AlignUp4(EndOf(eas[..|eas| - 1])) + |eas[|eas| - 1]|
  }

  lemma {:induction false} EndGrows(eas: seq<Ea>, i: nat)
    requires i <= |eas|
    ensures EndOf(eas[..i]) <= EndOf(eas)
    decreases |eas|
  {
    if i < |eas| {
      EndGrows(eas[..|eas| - 1], i);
      assert eas[..|eas| - 1][..i] == eas[..i];
    } else {
      assert eas[..i] == eas;
    }
  }

  lemma NothingListed(mem: seq<Byte>, eas: seq<Ea>)
    ensures EndOf(eas[..0]) == 0 && IsList(mem, eas[..0], 0, false)
  {
  }

  lemma EndOfMore(before: seq<Ea>, ea: Ea)
    ensures EndOf(before + [ea]) == AlignUp4(EndOf(before)) + |ea|
  {
    assert (before + [ea])[..|before|] == before;
  }

  lemma OneMore(eas: seq<Ea>, i: nat)
    requires i < |eas|
    ensures eas[..i] + [eas[i]] == eas[..i + 1] && EndOf(eas[..i + 1]) == AlignUp4(EndOf(eas[..i])) + |eas[i]|
    ensures EndOf(eas[..i + 1]) <= EndOf(eas)
  {
    hide *;
    EndGrows(eas, i + 1);
    EndOfMore(eas[..i], eas[i]);
    assert eas[..i] + [eas[i]] == eas[..i + 1];
  }

  /** Adds attributes, makes the list final once and enumerates it. */
  method AddAndEnumerate(eas: seq<Ea>, buf: array<Byte>, length: nat, accept: Ea -> bool)
    returns (fits: bool, transferred: nat, visited: seq<Ea>, ok: bool)
    requires AllWhole(eas) && length <= buf.Length
    modifies buf
    ensures fits <==> EndOf(eas) <= length
    ensures fits ==> transferred == EndOf(eas) && IsList(buf[..], eas, transferred, true)
    ensures fits ==> visited == Until(Seen(eas), accept) && (ok <==> Accepted(Seen(eas), accept))
    ensures fits && ok ==> visited == Seen(eas)
  {
    hide *;
    fits, transferred, visited, ok := true, 0, [], true;
    NothingListed(buf[..], eas);
    var i := 0;
    while i < |eas|
      invariant 0 <= i <= |eas| && fits && transferred == EndOf(eas[..i]) <= length
      invariant IsList(buf[..], eas[..i], transferred, false)
    {
      OneMore(eas, i);
      IsWhole(eas, i);
      fits, transferred := AddEa(eas[i], buf, length, transferred, eas[..i]);
      if !fits {
        return;
      }
      i := i + 1;
    }
    assert eas[..i] == eas;
    FinishEa(buf, transferred, eas);
    visited, ok := EnumerateEa(buf, transferred, accept, eas);
    if ok { AllAccepted(Seen(eas), accept); }
  }

  lemma IsWhole(eas: seq<Ea>, i: nat)
    requires AllWhole(eas) && i < |eas|
    ensures WholeEa(eas[i])
  {
  }
}
