/** Lists of self-sized records, packed one after the other at multiples of 8 bytes. */
module RecordPacking {
  import opened Memory

  type Record = seq<Byte>

  /** A record starts with its own 16-bit size. */
  predicate SelfSized(r: Record)
  {
    |r| >= 2 && U16At(r, 0) == |r|
  }

  const END_MARK: Record := [0, 0]

  /** `mem` with `bytes` written over it from offset `o`. */
  function Overwrite(mem: seq<Byte>, o: nat, bytes: seq<Byte>): (m: seq<Byte>)
    requires o + |bytes| <= |mem|
    ensures |m| == |mem| && m[..o] == mem[..o] && m[o..o + |bytes|] == bytes
    ensures m[o + |bytes|..] == mem[o + |bytes|..]
  {
    mem[..o] + bytes + mem[o + |bytes|..]
  }

  /** Appends a record, or the end mark, to the first `length` bytes of a buffer if there is room. */
  method AddXxxInfo(info: Option<Record>, buffer: array<Byte>, length: nat, transferred: nat)
    returns (ok: bool, transferred': nat)
    requires length <= buffer.Length
    requires info.Some? ==> SelfSized(info.value)
    modifies buffer
    ensures ok <==> transferred + (if info.Some? then AlignUp(|info.value|) else 2) <= length
    ensures ok ==> transferred' == transferred + if info.Some? then AlignUp(|info.value|) else 2
    ensures ok ==> buffer[..] == Overwrite(old(buffer[..]), transferred, if info.Some? then info.value else [0, 0])
    ensures !ok ==> transferred' == transferred && buffer[..] == old(buffer[..])
  {
    var source := END_MARK;
    var sourceLength, targetLength := 2, 2;
    if info.Some? {
      source := info.value;
      sourceLength := U16At(info.value, 0);
      targetLength := AlignUp(sourceLength);
    }
    if transferred + targetLength > length {
      return false, transferred;
    }
    forall i | 0 <= i < sourceLength {
      buffer[transferred + i] := source[i];
    }
    assert buffer[..] == Overwrite(old(buffer[..]), transferred, source);
    return true, transferred + targetLength;
  }

  /** `recs` lie in `mem` from offset `o`, each at the aligned end of the one before, up to offset `e`. */
  ghost predicate PackedAt(mem: seq<Byte>, o: nat, recs: seq<Record>, e: nat)
    decreases |recs|
  {
    if recs == [] then o == e
    else
      && o + |recs[0]| <= |mem|
      && mem[o..o + |recs[0]|] == recs[0]
      && PackedAt(mem, o + AlignUp(|recs[0]|), recs[1..], e)
  }

  /** What a reader that steps by the aligned size of each record finds between `o` and `e`. */
  function Walk(mem: seq<Byte>, o: nat, e: nat): seq<Record>
    requires e <= |mem|
    decreases e - o
  {
    if e < o + 2 || U16At(mem, o) < 2 || e < o + U16At(mem, o) then []
    else [mem[o..o + U16At(mem, o)]] + Walk(mem, o + AlignUp(U16At(mem, o)), e)
  }

  /** Whether such a reader stops at an end mark. */
  predicate EndMarked(mem: seq<Byte>, o: nat, e: nat)
    requires e <= |mem|
    decreases e - o
  {
    o + 2 <= e && (
      U16At(mem, o) == 0 ||
      (2 <= U16At(mem, o) <= e - o && EndMarked(mem, o + AlignUp(U16At(mem, o)), e)))
  }

  ghost predicate AllSelfSized(recs: seq<Record>)
  {
    forall r :: r in recs ==> SelfSized(r)
  }

  lemma {:induction false} PackedIsOrdered(mem: seq<Byte>, o: nat, recs: seq<Record>, e: nat)
    requires PackedAt(mem, o, recs, e)
    ensures o <= e && (o % 8 == 0 ==> e % 8 == 0)
    decreases |recs|
  {
    hide AlignUp;
    if recs != [] {
      PackedIsOrdered(mem, o + AlignUp(|recs[0]|), recs[1..], e);
    }
  }

  /** Only the bytes between the two ends matter. */
  lemma {:induction false} PackedFrame(mem: seq<Byte>, mem': seq<Byte>, o: nat, recs: seq<Record>, e: nat)
    requires PackedAt(mem, o, recs, e) && e <= |mem| && e <= |mem'| && mem[..e] == mem'[..e]
    ensures PackedAt(mem', o, recs, e)
    decreases |recs|
  {
    if recs != [] {
      PackedIsOrdered(mem, o + AlignUp(|recs[0]|), recs[1..], e);
      AgreeWithin(mem, mem', e, o, o + |recs[0]|);
      PackedFrame(mem, mem', o + AlignUp(|recs[0]|), recs[1..], e);
    }
  }

  lemma {:induction false} PackedAppend(mem: seq<Byte>, o: nat, recs: seq<Record>, e: nat, r: Record)
    requires PackedAt(mem, o, recs, e)
    requires e + |r| <= |mem| && mem[e..e + |r|] == r
    ensures PackedAt(mem, o, recs + [r], e + AlignUp(|r|))
    decreases |recs|
  {
    if recs == [] {
      assert (recs + [r])[1..] == [];
    } else {
      PackedAppend(mem, o + AlignUp(|recs[0]|), recs[1..], e, r);
      assert (recs + [r])[1..] == recs[1..] + [r];
    }
  }

  /** The reader gets back what the writer packed. */
  lemma {:induction false} WalkPacked(mem: seq<Byte>, o: nat, recs: seq<Record>, e: nat)
    requires PackedAt(mem, o, recs, e) && e <= |mem| && AllSelfSized(recs)
    ensures Walk(mem, o, e) == recs && !EndMarked(mem, o, e)
    ensures e + 2 <= |mem| && mem[e..e + 2] == END_MARK ==> Walk(mem, o, e + 2) == recs && EndMarked(mem, o, e + 2)
    decreases |recs|
  {
    hide AlignUp, U16At, SelfSized;
    if recs == [] {
      WalkEnds(mem, e);
    } else {
      var r := recs[0];
      PackedIsOrdered(mem, o + AlignUp(|r|), recs[1..], e);
      SizeRead(mem, o, r);
      WalkPacked(mem, o + AlignUp(|r|), recs[1..], e);
    }
  }

  lemma SizeRead(mem: seq<Byte>, o: nat, r: Record)
    requires SelfSized(r) && o + |r| <= |mem| && mem[o..o + |r|] == r
    ensures |r| >= 2 && U16At(mem, o) == |r|
  {
    assert mem[o] == mem[o..o + |r|][0] && mem[o + 1] == mem[o..o + |r|][1];
  }

  lemma WalkEnds(mem: seq<Byte>, e: nat)
    requires e <= |mem|
    ensures Walk(mem, e, e) == [] && !EndMarked(mem, e, e)
    ensures e + 2 <= |mem| && mem[e..e + 2] == END_MARK ==> Walk(mem, e, e + 2) == [] && EndMarked(mem, e, e + 2)
  {
    if e + 2 <= |mem| && mem[e..e + 2] == END_MARK {
      assert mem[e] == mem[e..e + 2][0] && mem[e + 1] == mem[e..e + 2][1];
    }
  }

  /** How many of the records fit into `room` bytes, the first one that does not fit being the last one tried. */
  function Fitting(recs: seq<Record>, room: int): (n: nat)
    ensures n <= |recs|
  {
    if recs == [] || AlignUp(|recs[0]|) > room then 0
    else 1 + Fitting(recs[1..], room - AlignUp(|recs[0]|))
  }

  function PackedSize(recs: seq<Record>): nat
  {
    if recs == [] then 0 else AlignUp(|recs[0]|) + PackedSize(recs[1..])
  }

  lemma {:induction false} PackedEnd(mem: seq<Byte>, o: nat, recs: seq<Record>, e: nat)
    requires PackedAt(mem, o, recs, e)
    ensures e == o + PackedSize(recs)
    decreases |recs|
  {
    if recs != [] {
      PackedEnd(mem, o + AlignUp(|recs[0]|), recs[1..], e);
    }
  }

  lemma {:induction false} PackedSizeAppend(recs: seq<Record>, r: Record)
    ensures PackedSize(recs + [r]) == PackedSize(recs) + AlignUp(|r|)
  {
    if recs == [] {
      assert (recs + [r])[1..] == [];
    } else {
      assert (recs + [r])[1..] == recs[1..] + [r];
      PackedSizeAppend(recs[1..], r);
    }
  }

  /** A count is the number that fits exactly when those fit and one more would not. */
  lemma {:induction false} FittingIs(recs: seq<Record>, room: nat, n: nat)
    requires n <= |recs|
    ensures n == Fitting(recs, room) <==>
            PackedSize(recs[..n]) <= room && (n < |recs| ==> PackedSize(recs[..n + 1]) > room)
  {
    if recs == [] {
    } else if n == 0 {
      assert recs[..1] == [recs[0]];
      assert PackedSize(recs[..1]) == AlignUp(|recs[0]|) by { assert recs[..1][1..] == []; }
    } else {
      var rest := room - AlignUp(|recs[0]|);
      assert recs[..n][1..] == recs[1..][..n - 1];
      if n < |recs| { assert recs[..n + 1][1..] == recs[1..][..n]; }
      if rest >= 0 {
        FittingIs(recs[1..], rest, n - 1);
      }
    }
  }
}
