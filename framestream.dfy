/**
 * What the reassembler does to a stream of well-formed frames: a 4-byte
 * big-endian length N followed by N bytes. Because the handler has no
 * loop and re-reads the prefix only in two places, frames come back out
 * intact when the chunk boundaries are "paced" (below). Pacing is enough
 * but not required: a stale target can happen to be right
 * (StaleTargetOfEqualSize). Two lemmas show chunkings that do go wrong.
 */
module FrameStream {

  import opened Base
  import opened BigEndian
  import opened Reassembly

  /** A frame as the peer sends it: its prefix, read as the handler reads it, plus 4 is its size. */
  predicate WellFormed(f: seq<byte>)
  {
    |f| >= 4 && ReadInt32BE(f) + 4 == |f|
  }

  /** The frame carrying a payload. */
  function Encode(payload: seq<byte>): (f: seq<byte>)
    requires |payload| < 0x8000_0000
    ensures WellFormed(f) && f[4..] == payload
  {
    ReadWriteInt32BE(|payload|);
    var f := WriteInt32BE(|payload|) + payload;
    ReadInt32BEPrefix(f, WriteInt32BE(|payload|));
    assert f[..4] == WriteInt32BE(|payload|);
    f
  }

  /** Every well-formed frame is the encoding of what follows its prefix. */
  lemma EncodeOnto(f: seq<byte>)
    requires WellFormed(f)
    ensures |f[4..]| < 0x8000_0000 && Encode(f[4..]) == f
  {
    WriteReadInt32BE(f);
    assert f == f[..4] + f[4..];
  }

  predicate AllWellFormed(frames: seq<seq<byte>>)
  {
    forall i :: 0 <= i < |frames| ==> WellFormed(frames[i])
  }

  /**
   * The chunking condition under which the reassembler returns the frames:
   * `k` bytes of the current frame are already buffered. A chunk arriving
   * at an empty buffer has at least four bytes; no chunk completes more
   * than one frame; and what is left over after a frame completes is
   * either nothing or at least four bytes (so its prefix is re-read).
   */
  predicate Paced(k: nat, frames: seq<seq<byte>>, chunks: seq<seq<byte>>)
    decreases |chunks|
  {
    if chunks == [] then k == 0 && frames == []
    else
      frames != [] && (k == 0 ==> |chunks[0]| >= 4) &&
      var m := k + |chunks[0]|;
      if m < |frames[0]| then Paced(m, frames, chunks[1..])
      else
        var left := m - |frames[0]|;
        (left == 0 || (4 <= left && |frames| >= 2 && left < |frames[1]|)) &&
        Paced(left, frames[1..], chunks[1..])
  }

  /** If d is a prefix of x + y at least as long as x, x starts d and the rest of d starts y. */
  lemma SplitPrefix<T>(d: seq<T>, more: seq<T>, x: seq<T>, y: seq<T>)
    requires d + more == x + y && |x| <= |d|
    ensures d[..|x|] == x && d[|x|..] + more == y
  {
    assert (d + more)[..|x|] == d[..|x|];
    assert (x + y)[|x|..] == y;
    assert (d + more)[|x|..] == d[|x|..] + more;
  }

  /** A prefix of x + y of at least four bytes, where x has at least four, reads the prefix of x. */
  lemma SharedPrefix(d: seq<byte>, more: seq<byte>, x: seq<byte>, y: seq<byte>)
    requires d + more == x + y && |d| >= 4 && |x| >= 4
    ensures ReadInt32BE(d) == ReadInt32BE(x)
  {
    assert d[..4] == (d + more)[..4] == (x + y)[..4] == x[..4];
    ReadInt32BEPrefix(d, x);
  }

  /** While aligned with the stream, the target in force after line 37 is the current frame's size. */
  lemma AlignedTarget(s: ReaderState, frames: seq<seq<byte>>, chunks: seq<seq<byte>>)
    requires AllWellFormed(frames) && chunks != []
    requires s.buf + Flatten(chunks) == Flatten(frames)
    requires Paced(|s.buf|, frames, chunks)
    requires s.buf != [] ==> |s.buf| >= 4 && s.targetLength == |frames[0]|
    ensures frames != [] && (s.buf != [] || |chunks[0]| >= 4)
    ensures PendingTarget(s, chunks[0]) == |frames[0]|
    ensures (s.buf + chunks[0]) + Flatten(chunks[1..]) == frames[0] + Flatten(frames[1..])
  {
    assert frames != [] && (s.buf == [] ==> |chunks[0]| >= 4);
    var c, more, f0, tail := chunks[0], Flatten(chunks[1..]), frames[0], Flatten(frames[1..]);
    assert WellFormed(f0);
    assert Flatten(frames) == f0 + tail;
    assert Flatten(chunks) == c + more;
    assert (s.buf + c) + more == s.buf + (c + more);
    if s.buf == [] {
      assert s.buf + c == c;
      SharedPrefix(c, more, f0, tail);
      assert PendingTarget(s, c) == ReadInt32BE(c) + 4;
    } else {
      assert PendingTarget(s, c) == s.targetLength;
    }
  }

  /** One paced data event that completes no frame: the chunk is appended and alignment is kept. */
  lemma PacedWait(s: ReaderState, frames: seq<seq<byte>>, chunks: seq<seq<byte>>)
    requires AllWellFormed(frames) && chunks != []
    requires s.buf + Flatten(chunks) == Flatten(frames)
    requires Paced(|s.buf|, frames, chunks)
    requires s.buf != [] ==> |s.buf| >= 4 && s.targetLength == |frames[0]|
    requires frames != [] && |s.buf + chunks[0]| < |frames[0]|
    ensures var r := Step(s, chunks[0]);
      && r == Stepped(ReaderState(s.buf + chunks[0], |frames[0]|), None)
      && r.next.buf + Flatten(chunks[1..]) == Flatten(frames)
      && Paced(|r.next.buf|, frames, chunks[1..])
      && |r.next.buf| >= 4
  {
    AlignedTarget(s, frames, chunks);
    StepWaits(s, chunks[0]);
    assert Flatten(chunks) == chunks[0] + Flatten(chunks[1..]);
    assert (s.buf + chunks[0]) + Flatten(chunks[1..]) == s.buf + Flatten(chunks);
  }

  /** One paced data event that completes a frame: it emits exactly that frame and stays aligned with the rest. */
  lemma PacedEmit(s: ReaderState, frames: seq<seq<byte>>, chunks: seq<seq<byte>>)
    requires AllWellFormed(frames) && chunks != []
    requires s.buf + Flatten(chunks) == Flatten(frames)
    requires Paced(|s.buf|, frames, chunks)
    requires s.buf != [] ==> |s.buf| >= 4 && s.targetLength == |frames[0]|
    requires frames != [] && |s.buf + chunks[0]| >= |frames[0]|
    ensures var r := Step(s, chunks[0]);
      && r.Stepped? && r.frame == Some(frames[0])
      && r.next.buf + Flatten(chunks[1..]) == Flatten(frames[1..])
      && Paced(|r.next.buf|, frames[1..], chunks[1..])
      && (r.next.buf != [] ==> |r.next.buf| >= 4 && r.next.targetLength == |frames[1]|)
  {
    AlignedTarget(s, frames, chunks);
    var d := s.buf + chunks[0];
    var more := Flatten(chunks[1..]);
    var f0 := frames[0];
    StepEmits(s, chunks[0]);
    SplitPrefix(d, more, f0, Flatten(frames[1..]));
    var r := Step(s, chunks[0]);
    assert r.frame == Some(f0) && r.next.buf == d[|f0|..];
    var left := |s.buf| + |chunks[0]| - |f0|;
    assert |r.next.buf| == left;
    assert Paced(left, frames[1..], chunks[1..]);
    assert left == 0 || (4 <= left && |frames| >= 2 && left < |frames[1]|);
    if r.next.buf != [] {
      assert Flatten(frames[1..]) == frames[1] + Flatten(frames[2..]);
      assert frames[1..][1..] == frames[2..];
      SharedPrefix(r.next.buf, more, frames[1], Flatten(frames[2..]));
    }
  }

  /**
   * Round trip: under paced chunking, the frames fed in come back out in
   * order, byte for byte, and the buffer ends empty.
   */
  lemma {:induction false} PacedRoundTrip(s: ReaderState, frames: seq<seq<byte>>, chunks: seq<seq<byte>>)
    requires AllWellFormed(frames)
    requires s.buf + Flatten(chunks) == Flatten(frames)
    requires Paced(|s.buf|, frames, chunks)
    requires s.buf != [] ==> |s.buf| >= 4 && s.targetLength == |frames[0]|
    ensures Feed(s, chunks).Fed?
    ensures Feed(s, chunks).frames == frames
    ensures Feed(s, chunks).last.buf == []
    decreases |chunks|
  {
    if chunks != [] {
      AlignedTarget(s, frames, chunks);
      var r := Step(s, chunks[0]);
      if |s.buf + chunks[0]| < |frames[0]| {
        PacedWait(s, frames, chunks);
        PacedRoundTrip(r.next, frames, chunks[1..]);
      } else {
        PacedEmit(s, frames, chunks);
        assert AllWellFormed(frames[1..]);
        PacedRoundTrip(r.next, frames[1..], chunks[1..]);
        assert [frames[0]] + frames[1..] == frames;
      }
    }
  }

  /** From the state the handshake leaves, paced chunks give back exactly the frames. */
  lemma FreshRoundTrip(frames: seq<seq<byte>>, chunks: seq<seq<byte>>)
    requires AllWellFormed(frames)
    requires Flatten(chunks) == Flatten(frames)
    requires Paced(0, frames, chunks)
    ensures Feed(Fresh, chunks).Fed?
    ensures Feed(Fresh, chunks).frames == frames && Feed(Fresh, chunks).last.buf == []
  {
    PacedRoundTrip(Fresh, frames, chunks);
  }

  /** One frame per data event is always paced, so a peer that sends frame by frame is decoded correctly. */
  lemma {:induction false} OneFramePerChunkIsPaced(frames: seq<seq<byte>>)
    requires AllWellFormed(frames)
    ensures Paced(0, frames, frames)
    decreases |frames|
  {
    if frames != [] {
      assert AllWellFormed(frames[1..]);
      OneFramePerChunkIsPaced(frames[1..]);
    }
  }

  /**
   * A chunk holding two whole frames emits only the first; the second
   * waits in the buffer, with its target already read, for the next data
   * event.
   */
  lemma SecondFrameWaits(f: seq<byte>, g: seq<byte>)
    requires WellFormed(f) && WellFormed(g)
    ensures Step(Fresh, f + g) == Stepped(ReaderState(g, |g|), Some(f))
    ensures Feed(Fresh, [f + g]) == Fed(ReaderState(g, |g|), [f])
  {
    var d := f + g;
    assert d[..|f|] == f && d[|f|..] == g;
    SharedPrefix(d, [], f, g);
    assert PendingTarget(Fresh, d) == |f|;
    StepEmits(Fresh, d);
    var r := Step(Fresh, d);
    assert Fresh.buf + d == d;
    assert r.frame == Some(f);
    assert r.next.buf == g;
    assert r.next.targetLength == |g|;
    assert [f + g][1..] == [];
  }

  /**
   * When a frame f completes with 2 bytes of the next frame g behind it,
   * the target is not re-read: g is cut at f's size.
   */
  lemma StaleTarget(f: seq<byte>, g: seq<byte>)
    requires WellFormed(f) && WellFormed(g) && |f| <= |g|
    ensures var r := Feed(Fresh, [f + g[..2], g[2..]]);
      r.Fed? && r.frames == [f, g[..|f|]] && r.last.buf == g[|f|..]
  {
    var d := f + g[..2];
    SharedPrefix(d, [], f, g[..2]);
    assert d[..|f|] == f && d[|f|..] == g[..2];
    assert Fresh.buf + d == d;
    assert PendingTarget(Fresh, d) == |f|;
    StepEmits(Fresh, d);
    var r1 := Step(Fresh, d);
    assert r1.frame == Some(f) && r1.next.buf == g[..2] && r1.next.targetLength == |f|;
    var s1 := r1.next;
    assert s1.buf + g[2..] == g;
    assert PendingTarget(s1, g[2..]) == |f|;
    StepEmits(s1, g[2..]);
    var r2 := Step(s1, g[2..]);
    assert r2.frame == Some(g[..|f|]);
    var chunks := [f + g[..2], g[2..]];
    assert chunks[1..] == [g[2..]] && chunks[1..][1..] == [];
    assert Feed(r2.next, []) == Fed(r2.next, []);
    assert Feed(s1, [g[2..]]) == Fed(r2.next, [g[..|f|]]);
    assert Feed(Fresh, chunks) == Fed(r2.next, [f] + [g[..|f|]]);
  }

  /** A longer second frame comes out as its first |f| bytes. */
  lemma StaleTargetCutsShort(f: seq<byte>, g: seq<byte>)
    requires WellFormed(f) && WellFormed(g) && |f| < |g|
    ensures var r := Feed(Fresh, [f + g[..2], g[2..]]);
      r.Fed? && r.frames == [f, g[..|f|]] && r.frames[1] != g
  {
    StaleTarget(f, g);
    assert |g[..|f|]| != |g|;
  }

  /**
   * Pacing is not required: the same chunking, which is not paced, gives
   * both frames back when the stale target happens to be the right size.
   */
  lemma StaleTargetOfEqualSize(f: seq<byte>, g: seq<byte>)
    requires WellFormed(f) && WellFormed(g) && |f| == |g|
    ensures !Paced(0, [f, g], [f + g[..2], g[2..]])
    ensures var r := Feed(Fresh, [f + g[..2], g[2..]]);
      r.Fed? && r.frames == [f, g] && r.last.buf == []
  {
    StaleTarget(f, g);
    assert g[..|f|] == g;
  }

  /**
   * Because the prefix is read signed, a prefix with its top bit set gives
   * a target below 4 bytes: a frame is emitted on that very event, however
   * short the chunk (an unsigned reading would wait for more than 2^31
   * bytes), and part of the chunk is left in the buffer.
   */
  lemma NegativePrefixEmitsAtOnce(chunk: seq<byte>)
    requires |chunk| >= 4 && chunk[0] >= 0x80
    ensures var r := Step(Fresh, chunk);
      r.Stepped? && r.frame.Some? && |r.frame.value| < |chunk| && r.next.buf != []
  {
  }
}
