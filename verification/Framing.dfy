/** Reassembly of fixed-length frames from arbitrary reads, safe against cancelled reads. */
module Framing {
  import opened Arith
  import opened Bytes

  class FrameAccumulator {
    const frameLen: nat
    var buf: seq<byte>

    constructor (frameLen: nat)
      ensures this.frameLen == frameLen && buf == []
    {
      this.frameLen := frameLen;
      buf := [];
    }

    method Push(bytes: seq<byte>)
      modifies this
      ensures buf == old(buf) + bytes
    {
      buf := buf + bytes;
    }

    method NextFrame() returns (r: Option<seq<byte>>)
      modifies this
      ensures r.Some? <==> |old(buf)| >= frameLen
      ensures r.Some? ==> |r.value| == frameLen && r.value + buf == old(buf)
      ensures r.None? ==> buf == old(buf)
    {
      if |buf| < frameLen {
        return None;
      }
      var rest := buf[frameLen..];
      r := Some(buf[..frameLen]);
      buf := rest;
    }

    function Pending(): nat
      reads this
    {
      |buf|
    }
  }

  /** What one poll of the underlying stream does: deliver up to `k` bytes, stay pending, or fail. */
  datatype Event = Ready(k: nat) | NotReady | Broken

  datatype ReadResult = Got(n: nat) | StillPending | IoError

  /** A stream of bytes that arrives in pieces the reader does not control. */
  class Source {
    var data: seq<byte>
    var script: seq<Event>

    /** Reads at least one byte when any is left, and never more than `room`; 0 means end of stream. */
    method Read(dst: array<byte>, room: nat) returns (r: ReadResult)
      requires room <= dst.Length
      modifies this, dst
      ensures script == if old(script) == [] then [] else old(script)[1..]
      ensures r.StillPending? <==> old(script) == [] || old(script)[0] == NotReady
      ensures r.IoError? <==> old(script) != [] && old(script)[0] == Broken
      ensures r.Got? ==> r.n <= room && dst[..r.n] + data == old(data)
      ensures r.Got? && r.n == 0 && room > 0 ==> old(data) == []
      ensures !r.Got? ==> data == old(data)
    {
      if script == [] {
        return StillPending;
      }
      var e := script[0];
      script := script[1..];
      match e
      case NotReady => return StillPending;
      case Broken => return IoError;
      case Ready(k) =>
        var n := if k == 0 then 1 else k;
        n := if n > room then room else n;
        n := if n > |data| then |data| else n;
        forall i | 0 <= i < n {
          dst[i] := data[i];
        }
        assert dst[..n] == data[..n];
        data := data[n..];
        return Got(n);
    }
  }

  datatype Poll = Frame(bytes: seq<byte>) | Cancelled | Failed

  /** A read of `room` bytes at stream position `pos` stays inside the frame being assembled. */
  predicate InsideFrame(pos: nat, room: nat, frameLen: nat) {
    room >= 1 && frameLen > 0 && pos / frameLen == (pos + room - 1) / frameLen
  }

  /**
   A stream plus its partial-frame buffer. The ghost fields record everything read so far, every
   frame handed out, and the position and size of every read request.
   */
  class FrameReader {
    const inner: Source
    const acc: FrameAccumulator
    const scratch: array<byte>
    ghost var consumed: seq<byte>
    ghost var yielded: seq<seq<byte>>
    ghost var asked: seq<(nat, nat)>

    /** Between a read and the next drain at most one whole frame is waiting. */
    ghost predicate Tracks()
      reads this, acc
    {
      && scratch.Length == acc.frameLen
      && consumed == Flatten(yielded) + acc.buf
      && Uniform(yielded, acc.frameLen)
      && |acc.buf| <= acc.frameLen
      && forall i :: 0 <= i < |asked| ==> InsideFrame(asked[i].0, asked[i].1, acc.frameLen)
    }

    ghost predicate Valid()
      reads this, acc
    {
      Tracks() && (acc.frameLen > 0 ==> |acc.buf| < acc.frameLen)
    }

    constructor (inner: Source, frameLen: nat)
      ensures Valid() && this.inner == inner && acc.frameLen == frameLen
      ensures fresh(acc) && fresh(scratch)
      ensures consumed == [] && yielded == [] && asked == []
    {
      this.inner := inner;
      acc := new FrameAccumulator(frameLen);
      scratch := new byte[frameLen](_ => 0);
      consumed, yielded, asked := [], [], [];
    }

    /** One cancel-safe read, sized to the end of the frame being assembled. */
    method Fill() returns (n: ReadResult)
      requires Valid() && acc.frameLen > 0
      modifies this, inner, acc, scratch
      ensures Tracks() && yielded == old(yielded) && old(asked) < asked
      ensures consumed + inner.data == old(consumed + inner.data)
      ensures n.Got? && n.n > 0 ==> |inner.script| < old(|inner.script|)
      ensures (n.Got? && n.n > 0) || unchanged(acc)
      ensures n.StillPending? ==> inner.script == [] || NotReady in old(inner.script)
      ensures n.IoError? ==> Broken in old(inner.script)
      ensures n.Got? && n.n == 0 ==> inner.data == []
      ensures forall e :: e in inner.script ==> e in old(inner.script)
    {
      var room := scratch.Length - acc.Pending();
      RoomIsInsideFrame(yielded, acc.buf, acc.frameLen);
      asked := asked + [(|consumed|, room)];
      n := inner.Read(scratch, room);
      if n.Got? && n.n > 0 {
        consumed := consumed + scratch[..n.n];
        acc.Push(scratch[..n.n]);
      }
    }

    /**
     Yield the next whole frame. Wherever the poll stops, no byte is lost or reordered, and a frame
     is handed out exactly when one is complete, leaving nothing pending.
     */
    method NextFrame() returns (r: Poll)
      requires Valid()
      modifies this, inner, acc, scratch
      ensures Valid() && old(asked) <= asked
      ensures consumed + inner.data == old(consumed + inner.data)
      ensures r.Frame? ==> yielded == old(yielded) + [r.bytes] && acc.Pending() == 0
      ensures !r.Frame? ==> yielded == old(yielded) && acc.Pending() < acc.frameLen
      ensures r.Cancelled? ==> inner.script == [] || NotReady in old(inner.script)
      ensures r.Failed? ==> inner.data == [] || Broken in old(inner.script)
    {
      hide Flatten, InsideFrame;
      while true
        invariant Tracks() && yielded == old(yielded) && old(asked) <= asked
        invariant consumed + inner.data == old(consumed + inner.data)
        invariant forall e :: e in inner.script ==> e in old(inner.script)
        decreases |inner.script|
      {
        var drained := acc.NextFrame();
        if drained.Some? {
          FlattenSnoc(yielded, drained.value);
          yielded := yielded + [drained.value];
          return Frame(drained.value);
        }
        var n := Fill();
        match n
        case StillPending => return Cancelled;
        case IoError => return Failed;
        case Got(k) =>
          if k == 0 {
            return Failed;
          }
      }
    }
  }

  /**
   What any number of polls amount to, given the reader's invariant: of the whole stream, the frames
   handed out are the consecutive `frameLen` slices, and the bytes taken are theirs plus the pending.
   */
  lemma {:induction false} YieldsAreConsecutiveSlices(yielded: seq<seq<byte>>, rest: seq<byte>, frameLen: nat, k: nat)
    requires Uniform(yielded, frameLen) && k < |yielded|
    ensures |Flatten(yielded) + rest| == |yielded| * frameLen + |rest|
    ensures 0 <= k * frameLen <= (k + 1) * frameLen <= |yielded| * frameLen
    ensures (Flatten(yielded) + rest)[k * frameLen..(k + 1) * frameLen] == yielded[k]
  {
    FlattenLength(yielded, frameLen);
    var before, after := yielded[..k], yielded[k + 1..];
    FlattenLength(before, frameLen);
    assert yielded == before + [yielded[k]] + after;
    FlattenSnoc(before, yielded[k]);
    FlattenAppend(before + [yielded[k]], after);
    FlattenLength(before + [yielded[k]], frameLen);
    FlattenLength(after, frameLen);
    assert Flatten(yielded) + rest == Flatten(before) + yielded[k] + (Flatten(after) + rest);
  }

  lemma RoomIsInsideFrame(yielded: seq<seq<byte>>, buf: seq<byte>, frameLen: nat)
    requires Uniform(yielded, frameLen) && |buf| < frameLen
    ensures InsideFrame(|Flatten(yielded) + buf|, frameLen - |buf|, frameLen)
  {
    FlattenLength(yielded, frameLen);
    var q := |yielded|;
    var pos := q * frameLen + |buf|;
    assert pos / frameLen == q by { DivModUnique(pos, q, |buf|, frameLen); }
    assert (pos + frameLen - |buf| - 1) / frameLen == q by {
      DivModUnique(pos + frameLen - |buf| - 1, q, frameLen - 1, frameLen);
    }
  }
}
