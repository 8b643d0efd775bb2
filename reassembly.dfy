/**
 * The length-prefixed frame reassembler of the peer `data` handler
 * (server/index.js, lines 33-45). Its state is the closure's two
 * variables: `buffer`, the bytes received and not yet emitted, and
 * `targetLength`, the size of the frame being assembled, prefix included.
 */
module Reassembly {

  import opened Base
  import opened BigEndian

  /** The closure state as a value: `buffer` and `targetLength`. */
  datatype ReaderState = ReaderState(buf: seq<byte>, targetLength: int)

  /** The state set up right after the handshake (lines 33-34). */
  const Fresh: ReaderState := ReaderState([], 0)

  /** What one data event does: readInt32BE throws, or the state moves and at most one frame is emitted. */
  datatype StepResult = Threw | Stepped(next: ReaderState, frame: Option<seq<byte>>)

  /**
   * Node's offset adjustment in Buffer.slice: a negative offset counts back
   * from the end, and the result is clamped to the buffer.
   */
  function SliceOffset(offset: int, len: nat): (p: nat)
    ensures p <= len
    ensures 0 <= offset <= len ==> p == offset
    ensures offset < 0 && -offset <= len ==> p + -offset == len
    ensures offset < 0 && -offset > len ==> p == 0
    ensures offset > len ==> p == len
  {
    if offset < 0 then (if len + offset > 0 then len + offset else 0)
    else if offset < len then offset
    else len
  }

  /** The target in force once line 37 has run: re-read only when the buffer was empty. */
  function PendingTarget(s: ReaderState, chunk: seq<byte>): int
    requires s.buf != [] || |chunk| >= 4
  {
    if s.buf == [] then ReadInt32BE(chunk) + 4 else s.targetLength
  }

  /** The bytes an optional frame stands for. */
  function FrameBytes(f: Option<seq<byte>>): (r: seq<byte>)
    ensures f.None? ==> r == []
    ensures f.Some? ==> r == f.value
  {
    assert f.Some? ==> OptionToSeq(f)[1..] == [] && Flatten(OptionToSeq(f)) == f.value + Flatten([]);
    Flatten(OptionToSeq(f))
  }

  /**
   * One data event, lines 37-43: read the prefix if the buffer is empty,
   * append the chunk, and if enough bytes are there cut one frame off the
   * front and re-read the prefix of what is left when four bytes remain.
   */
  function Step(s: ReaderState, chunk: seq<byte>): (r: StepResult)
    ensures r.Threw? <==> s.buf == [] && |chunk| < 4
    ensures r.Stepped? ==> FrameBytes(r.frame) + r.next.buf == s.buf + chunk
  {
    if s.buf == [] && |chunk| < 4 then Threw
    else
      var t := PendingTarget(s, chunk);
      var d := s.buf + chunk;
      if |d| < t then Stepped(ReaderState(d, t), None)
      else
        var p := SliceOffset(t, |d|);
        var rest := d[p..];
        assert d[..p] + rest == d;
        Stepped(ReaderState(rest, if |rest| >= 4 then ReadInt32BE(rest) + 4 else t), Some(d[..p]))
  }

  /** Line 37: on an empty buffer the chunk's first four bytes, read signed, fix the target. */
  lemma StepReadsPrefix(chunk: seq<byte>, t: int)
    requires |chunk| >= 4
    ensures Step(ReaderState([], t), chunk).Stepped?
    ensures var r := Step(ReaderState([], t), chunk);
      r.frame.None? ==> r.next == ReaderState(chunk, ReadInt32BE(chunk) + 4)
    ensures |chunk| < ReadInt32BE(chunk) + 4 ==> Step(ReaderState([], t), chunk).frame.None?
  {
  }

  /** Lines 38-39: too few bytes for the target, so the chunk is only appended. */
  lemma StepWaits(s: ReaderState, chunk: seq<byte>)
    requires s.buf != [] || |chunk| >= 4
    requires |s.buf + chunk| < PendingTarget(s, chunk)
    ensures Step(s, chunk) == Stepped(ReaderState(s.buf + chunk, PendingTarget(s, chunk)), None)
  {
  }

  /**
   * Lines 38-43: with enough bytes, the frame is the first `target` bytes
   * (for a non-negative target), the buffer keeps exactly the rest, and the
   * target is re-read from the rest if and only if four bytes remain;
   * otherwise the previous target stays.
   */
  lemma StepEmits(s: ReaderState, chunk: seq<byte>)
    requires s.buf != [] || |chunk| >= 4
    requires PendingTarget(s, chunk) <= |s.buf + chunk|
    ensures var r := Step(s, chunk); var t := PendingTarget(s, chunk); var d := s.buf + chunk;
      && r.Stepped? && r.frame.Some?
      && r.frame.value + r.next.buf == d
      && (t >= 0 ==> r.frame.value == d[..t] && r.next.buf == d[t..])
      && (|r.next.buf| >= 4 ==> r.next.targetLength == ReadInt32BE(r.next.buf) + 4)
      && (|r.next.buf| < 4 ==> r.next.targetLength == t)
  {
  }

  /**
   * A reassembler whose handler runs once per data event. Its two fields
   * are the closure variables of lines 33-34.
   */
  class Reassembler {
    var buf: seq<byte>
    var targetLength: int

    /** Lines 33-34: an empty buffer and a target of 0. */
    constructor ()
      ensures buf == [] && targetLength == 0
    {
      buf := [];
      targetLength := 0;
    }

    function State(): ReaderState
      reads this
    {
      ReaderState(buf, targetLength)
    }

    /**
     * The handler of lines 36-43. `threw` reports that readInt32BE threw on a
     * chunk shorter than four bytes arriving at an empty buffer; nothing has
     * changed then. Otherwise the new state and the frame are those of Step.
     */
    method OnData(chunk: seq<byte>) returns (threw: bool, frame: Option<seq<byte>>)
      modifies this
      ensures threw <==> old(buf) == [] && |chunk| < 4
      ensures threw ==> frame.None? && buf == old(buf) && targetLength == old(targetLength)
      ensures !threw ==> Step(old(State()), chunk) == Stepped(State(), frame)
    {
      if |buf| == 0 {
        if |chunk| < 4 {
          return true, None;
        }
        targetLength := ReadInt32BE(chunk) + 4;
      }
      buf := buf + chunk;
      if |buf| < targetLength {
        return false, None;
      }
      var end := SliceOffset(targetLength, |buf|);
      var target := buf[..end];
      buf := buf[end..];
      if |buf| >= 4 {
        targetLength := ReadInt32BE(buf) + 4;
      }
      return false, Some(target);
    }
  }

  /** The outcome of a run of data events: a throw somewhere, or the last state and the frames emitted in order. */
  datatype FeedResult = Crashed | Fed(last: ReaderState, frames: seq<seq<byte>>)

  /**
   * Successive data events on one connection, each emitting at most one
   * frame, collected in order.
   */
  function Feed(s: ReaderState, chunks: seq<seq<byte>>): (r: FeedResult)
    ensures r.Fed? ==> |r.frames| <= |chunks|
    decreases |chunks|
  {
    if chunks == [] then Fed(s, [])
    else
      match Step(s, chunks[0])
      case Threw => Crashed
      case Stepped(n, f) =>
        var rest := Feed(n, chunks[1..]);
        if rest.Crashed? then Crashed else Fed(rest.last, OptionToSeq(f) + rest.frames)
  }

  /** If b + c == d + e and a + d == x, then a + b + c == x + e. */
  lemma Regroup<T>(a: seq<T>, b: seq<T>, c: seq<T>, d: seq<T>, e: seq<T>, x: seq<T>)
    requires b + c == d + e && a + d == x
    ensures a + b + c == x + e
  {
    calc {
      a + b + c;
      a + (b + c);
      a + (d + e);
      (a + d) + e;
    }
  }

  /** No byte is lost or duplicated: the frames emitted and the bytes left over are exactly the bytes fed in. */
  lemma {:induction false} FeedConserves(s: ReaderState, chunks: seq<seq<byte>>)
    ensures var r := Feed(s, chunks);
      r.Fed? ==> Flatten(r.frames) + r.last.buf == s.buf + Flatten(chunks)
    decreases |chunks|
  {
    if chunks != [] && Step(s, chunks[0]).Stepped? && Feed(s, chunks).Fed? {
      var n, f := Step(s, chunks[0]).next, Step(s, chunks[0]).frame;
      var rest := Feed(n, chunks[1..]);
      FeedConserves(n, chunks[1..]);
      var last, fs := rest.last, rest.frames;
      FlattenAppend(OptionToSeq(f), fs);
      var a, b, c, d, e := FrameBytes(f), Flatten(fs), last.buf, n.buf, Flatten(chunks[1..]);
      assert Flatten(chunks) == chunks[0] + e;
      Regroup(a, b, c, d, e, s.buf + chunks[0]);
    }
  }
}
