/** Batches of requests or responses: frames laid out one after the other in the buffer shared with the driver. */
module TransactFrames {
  import opened Memory
  import opened RecordPacking

  type Frame = seq<Byte>

  /** A frame names its own size, behind a 16-bit version; `least` is the size of its fixed part. */
  predicate IsFrame(f: Frame, least: nat, most: nat)
    requires least >= 4
  {
    least <= |f| <= most && U16At(f, 2) == |f|
  }

  ghost predicate AreFrames(frames: seq<Frame>, least: nat, most: nat)
    requires least >= 4
  {
    forall k :: 0 <= k < |frames| ==> IsFrame(frames[k], least, most)
  }

  predicate CanProduce(p: nat, end: nat, most: nat)
  {
    p + most <= end
  }

  function Produce(p: nat, size: nat): nat
  {
    p + AlignUp(size)
  }

  /** Where the next frame is, unless the one at `p` is not whole. */
  function Consume(mem: seq<Byte>, p: nat, end: nat, least: nat): Option<nat>
    requires p % 8 == 0 && end % 8 == 0 && end <= |mem|
  {
    if p + 2 > end || least > U16At(mem, p + 2) then None
    else
      var next := p + AlignUp(U16At(mem, p + 2));
      if next <= end then Some(next) else None
  }

  /** What a consumer gets from `p` on. */
  function Consumed(mem: seq<Byte>, p: nat, end: nat, least: nat): seq<Frame>
    requires p % 8 == 0 && end % 8 == 0 && end <= |mem| && least >= 4
    decreases end - p
  {
    var next := Consume(mem, p, end, least);
    if next.None? then [] else [mem[p..p + U16At(mem, p + 2)]] + Consumed(mem, next.value, end, least)
  }

  /** Writing a frame where one can be produced leaves the earlier ones alone and stays in the buffer. */
  lemma ProduceAppends(mem: seq<Byte>, start: nat, frames: seq<Frame>, p: nat, f: Frame, least: nat, most: nat)
    requires least >= 4 && IsFrame(f, least, most) && most % 8 == 0
    requires PackedAt(mem, start, frames, p) && CanProduce(p, |mem|, most)
    ensures p <= Produce(p, |f|) <= |mem|
    ensures PackedAt(Overwrite(mem, p, f), start, frames + [f], Produce(p, |f|))
  {
    hide PackedAt, U16At, Overwrite;
    var m := Overwrite(mem, p, f);
    PackedFrame(mem, m, start, frames, p);
    PackedAppend(m, start, frames, p, f);
  }

  lemma FirstConsumed(mem: seq<Byte>, p: nat, f: Frame, end: nat, least: nat, most: nat)
    requires p % 8 == 0 && end % 8 == 0 && end <= |mem| && least >= 4
    requires IsFrame(f, least, most) && p + AlignUp(|f|) <= end && mem[p..p + |f|] == f
    ensures p + 4 <= |mem| && U16At(mem, p + 2) == |f| && Consume(mem, p, end, least) == Some(p + AlignUp(|f|))
  {
    assert mem[p + 2] == mem[p..p + |f|][2] && mem[p + 3] == mem[p..p + |f|][3];
  }

  lemma ConsumedOnce(mem: seq<Byte>, p: nat, q: nat, f: Frame, end: nat, least: nat)
    requires p % 8 == 0 && end % 8 == 0 && end <= |mem| && least >= 4 && p + |f| <= q <= end && q % 8 == 0 &&
             mem[p..p + |f|] == f
    requires p + 4 <= |mem| && U16At(mem, p + 2) == |f| && Consume(mem, p, end, least) == Some(q)
    ensures Consumed(mem, p, end, least) == [f] + Consumed(mem, q, end, least)
  {
    hide Consume, U16At;
  }

  lemma FirstPacked(mem: seq<Byte>, p: nat, frames: seq<Frame>, end: nat)
    requires PackedAt(mem, p, frames, end) && frames != []
    ensures p + |frames[0]| <= |mem| && mem[p..p + |frames[0]|] == frames[0]
    ensures PackedAt(mem, p + AlignUp(|frames[0]|), frames[1..], end)
  {
    hide AlignUp;
  }

  lemma NonePacked(mem: seq<Byte>, p: nat, end: nat)
    requires PackedAt(mem, p, [], end)
    ensures p == end
  {
  }

  lemma RestAreFrames(frames: seq<Frame>, least: nat, most: nat)
    requires least >= 4 && frames != [] && AreFrames(frames, least, most)
    ensures IsFrame(frames[0], least, most) && AreFrames(frames[1..], least, most)
  {
  }

  /** The consumer gets back the frames that were produced. */
  lemma {:induction false} ConsumedIsProduced(mem: seq<Byte>, p: nat, frames: seq<Frame>, end: nat, least: nat,
                                              most: nat)
    requires p % 8 == 0 && end % 8 == 0 && end <= |mem| && least >= 4
    requires PackedAt(mem, p, frames, end) && AreFrames(frames, least, most)
    ensures Consumed(mem, p, end, least) == frames
    decreases |frames|
  {
    hide Consume, U16At, IsFrame, AreFrames, Consumed, AlignUp, PackedAt;
    if frames == [] {
      NonePacked(mem, p, end);
      NoneConsumed(mem, end, least);
    } else {
      var q := p + AlignUp(|frames[0]|);
      RestAreFrames(frames, least, most);
      FirstPacked(mem, p, frames, end);
      PackedIsOrdered(mem, q, frames[1..], end);
      FirstConsumed(mem, p, frames[0], end, least, most);
      ConsumedOnce(mem, p, q, frames[0], end, least);
      ConsumedIsProduced(mem, q, frames[1..], end, least, most);
    }
  }

  /** Whatever the consumer gets is a packed list of frames that name their own sizes, and where it stops there is no
      whole frame any more. */
  lemma {:induction false} ConsumedIsPacked(mem: seq<Byte>, p: nat, end: nat, least: nat) returns (q: nat)
    requires p % 8 == 0 && end % 8 == 0 && p <= end <= |mem| && least >= 4
    ensures p <= q <= end && q % 8 == 0 && PackedAt(mem, p, Consumed(mem, p, end, least), q)
    ensures forall f :: f in Consumed(mem, p, end, least) ==>
                          least <= |f| && |f| == f[2] as int + 0x100 * f[3] as int
    ensures q < end ==> q + 8 <= end
    ensures q < end ==> var size := mem[q + 2] as int + 0x100 * mem[q + 3] as int; size < least || end < q + size
    decreases end - p
  {
    hide *;
    ConsumeIs(mem, p, end, least);
    var next := Consume(mem, p, end, least);
    if next.None? {
      q := p;
      NothingProduced(mem, p, []);
    } else {
      q := ConsumedIsPacked(mem, next.value, end, least);
      PackedBehind(mem, p, mem[p..p + SizeNamed(mem, p)], Consumed(mem, next.value, end, least), q);
    }
  }

  /** The size that a frame at `p` names. */
  function SizeNamed(mem: seq<Byte>, p: nat): (size: nat)
    requires p + 4 <= |mem|
    ensures size == mem[p + 2] as int + 0x100 * mem[p + 3] as int
  {
    U16At(mem, p + 2)
  }

  lemma ConsumeIs(mem: seq<Byte>, p: nat, end: nat, least: nat)
    requires p % 8 == 0 && end % 8 == 0 && p <= end <= |mem| && least >= 4
    ensures p < end ==> p + 8 <= end
    ensures var next, rest := Consume(mem, p, end, least), Consumed(mem, p, end, least);
            if p == end || SizeNamed(mem, p) < least || end < p + SizeNamed(mem, p) then next == None && rest == []
            else
              var f := mem[p..p + SizeNamed(mem, p)];
              && next == Some(p + AlignUp(|f|)) && p < next.value <= end && next.value % 8 == 0
              && rest == [f] + Consumed(mem, next.value, end, least) && f[2] == mem[p + 2] && f[3] == mem[p + 3]
  {
    AlignedFit(p, end, if p < end then SizeNamed(mem, p) else 0);
    hide U16At, AlignUp;
  }

  /** Between multiples of 8 there is room for a size exactly if there is for it rounded up. */
  lemma AlignedFit(p: nat, end: nat, size: nat)
    requires p % 8 == 0 && end % 8 == 0
    ensures p < end ==> p + 8 <= end
    ensures end < p + size <==> end < p + AlignUp(size)
    ensures (p + AlignUp(size)) % 8 == 0 && (size > 0 ==> AlignUp(size) > 0)
  {
  }

  lemma PackedBehind(mem: seq<Byte>, p: nat, f: Frame, rest: seq<Frame>, q: nat)
    requires p + |f| <= |mem| && mem[p..p + |f|] == f && PackedAt(mem, p + AlignUp(|f|), rest, q)
    ensures PackedAt(mem, p, [f] + rest, q)
  {
    assert ([f] + rest)[1..] == rest;
  }

  lemma NoneConsumed(mem: seq<Byte>, end: nat, least: nat)
    requires end % 8 == 0 && end <= |mem| && least >= 4
    ensures Consumed(mem, end, end, least) == []
  {
  }

  lemma ProducedAligned(mem: seq<Byte>, start: nat, frames: seq<Frame>, end: nat)
    requires PackedAt(mem, start, frames, end) && start % 8 == 0
    ensures end % 8 == 0
  {
    PackedIsOrdered(mem, start, frames, end);
  }

  lemma NothingProduced(mem: seq<Byte>, p: nat, frames: seq<Frame>)
    ensures PackedAt(mem, p, frames[..0], p)
  {
  }

  lemma FrameAt(frames: seq<Frame>, n: nat, least: nat, most: nat)
    requires least >= 4 && AreFrames(frames, least, most) && n < |frames|
    ensures IsFrame(frames[n], least, most) && least <= |frames[n]| <= most &&
            frames[..n] + [frames[n]] == frames[..n + 1]
  {
  }

  lemma FirstAreFrames(frames: seq<Frame>, n: nat, least: nat, most: nat)
    requires least >= 4 && AreFrames(frames, least, most) && n <= |frames|
    ensures AreFrames(frames[..n], least, most)
  {
  }

  lemma RoomForMost(p: nat, end: nat, most: nat)
    ensures CanProduce(p, end, most) <==> p + most <= end
  {
  }

  /** Produces frames from `start` on while there is room for one of the largest size.  The consumer gets back just
      these. */
  method ProduceFrames(frames: seq<Frame>, buf: array<Byte>, start: nat, least: nat, most: nat)
    returns (n: nat, end: nat)
    requires least >= 4 && most % 8 == 0 && start % 8 == 0 && start <= buf.Length && AreFrames(frames, least, most)
    modifies buf
    ensures n <= |frames| && (n < |frames| ==> end + most > buf.Length)
    ensures end == start + PackedSize(frames[..n]) <= buf.Length && end % 8 == 0 && buf[..start] == old(buf[..start])
    ensures Consumed(buf[..], start, end, least) == frames[..n]
  {
    hide *;
    n, end := 0, start;
    NothingProduced(buf[..], start, frames);
    while n < |frames| && CanProduce(end, buf.Length, most)
      invariant n <= |frames| && start <= end <= buf.Length
      invariant PackedAt(buf[..], start, frames[..n], end) && buf[..start] == old(buf[..start])
    {
      ghost var was := buf[..];
      var f := frames[n];
      FrameAt(frames, n, least, most);
      RoomForMost(end, buf.Length, most);
      ProduceAppends(was, start, frames[..n], end, f, least, most);
      forall i | 0 <= i < |f| {
        buf[end + i] := f[i];
      }
      assert buf[..] == Overwrite(was, end, f);
      AgreeWithin(buf[..], was, end, 0, start);
      end := Produce(end, |f|);
      n := n + 1;
    }
    ProducedAligned(buf[..], start, frames[..n], end);
    FirstAreFrames(frames, n, least, most);
    RoomForMost(end, buf.Length, most);
    PackedEnd(buf[..], start, frames[..n], end);
    ConsumedIsProduced(buf[..], start, frames[..n], end, least, most);
  }
}
