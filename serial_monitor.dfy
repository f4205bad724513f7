/** The START/STOP message framer of the serial monitor's reader thread.

    Every text line read from the device is appended to a buffer. As soon as the
    buffer holds both the literal `START` and the literal `STOP`, the span from
    the first `START` to the end of the first `STOP` is stripped of surrounding
    whitespace and recorded with a timestamp, and the buffer is cut just after
    that first `STOP`. One line leads to at most one such extraction. */
module SerialMonitor {
  import opened Wrappers
  import opened PyStr

  const StartMarker: string := "START"
  const EndMarker: string := "STOP"

  /** The wall-clock text the reader stamps on each captured message. */
  type Timestamp = string

  /** What one extraction yields: the captured text and the buffer left behind. */
  datatype Extraction = Extraction(message: string, rest: string)

  /** Both markers are somewhere in the buffer, so an extraction takes place. */
  predicate Framed(buffer: string)
  {
    Contains(buffer, StartMarker) && Contains(buffer, EndMarker)
  }

  /** `rest` is what is left of `buffer` once a prefix holding at least a whole
      `STOP` is cut off. */
  predicate CutFrom(buffer: string, rest: string)
  {
    |rest| + |EndMarker| <= |buffer| && rest == buffer[|buffer| - |rest|..]
  }

  /** The extraction performed on the buffer after a line was appended to it:
      `None` when a marker is missing, otherwise the stripped span from the first
      `START` to the end of the first `STOP` and the buffer after that `STOP`. */
  function Extract(buffer: string): (r: Option<Extraction>)
    ensures r.None? <==> !Framed(buffer)
    ensures r.Some? ==> CutFrom(buffer, r.value.rest)
  {
    if Framed(buffer) then
      var startIndex, stopIndex := Find(buffer, StartMarker), Find(buffer, EndMarker);
      FoundBoth(buffer, startIndex, stopIndex);
      Some(Cut(buffer, startIndex, stopIndex))
    else
      None
  }

  /** The extraction for a `START` at `i` and a `STOP` at `j`: the stripped slice
      from `i` to the end of that `STOP`, and the buffer after it. */
  function Cut(buffer: string, i: nat, j: nat): Extraction
    requires j + |EndMarker| <= |buffer|
  {
    Extraction(Strip(Slice(buffer, i, j + |EndMarker|)), buffer[j + |EndMarker|..])
  }

  /** In a framed buffer both `find` results are real indices, and the first
      `STOP` ends inside the buffer, which is cut just after it. */
  lemma FoundBoth(buffer: string, i: int, j: int)
    requires Framed(buffer)
    requires i == Find(buffer, StartMarker) && j == Find(buffer, EndMarker)
    ensures 0 <= i && 0 <= j && j + |EndMarker| <= |buffer|
    ensures CutFrom(buffer, Cut(buffer, i, j).rest)
  {
    assert OccursAt(buffer, EndMarker, j);
  }

  /** Unfolds `Extract` on a framed buffer. */
  lemma ExtractFramed(buffer: string, i: int, j: int)
    requires Framed(buffer)
    requires i == Find(buffer, StartMarker) && j == Find(buffer, EndMarker)
    ensures 0 <= i && 0 <= j && j + |EndMarker| <= |buffer|
    ensures Extract(buffer) == Some(Cut(buffer, i, j))
  {
    FoundBoth(buffer, i, j);
  }

  /** A `START` and a `STOP` never overlap: no suffix of one is a prefix of the
      other. */
  lemma {:induction false} MarkersApart(buffer: string, i: int, j: int)
    requires OccursAt(buffer, StartMarker, i) && OccursAt(buffer, EndMarker, j)
    ensures i + |StartMarker| <= j || j + |EndMarker| <= i
  {
    var start, stop := buffer[i..i + 5], buffer[j..j + 4];
    assert start == "START" && stop == "STOP";
    assert forall k :: i <= k < i + 5 ==> buffer[k] == start[k - i];
    assert forall k :: j <= k < j + 4 ==> buffer[k] == stop[k - j];
    assert forall k :: i < k < i + 5 ==> buffer[k] != 'S';
    assert forall k :: j < k < j + 4 ==> buffer[k] != 'S';
    assert buffer[i] == 'S' && buffer[j] == 'S';
    assert buffer[i + 2] == 'A' && buffer[j + 2] == 'O';
  }

  /** The span from a `START` at `i` to the end of a later `STOP` at `j` begins
      with `START` and ends with `STOP`. */
  lemma {:induction false} SpanBetweenMarkers(buffer: string, i: int, j: int)
    requires OccursAt(buffer, StartMarker, i) && OccursAt(buffer, EndMarker, j) && i < j
    ensures i + |StartMarker| <= j && j + |EndMarker| <= |buffer|
    ensures var m := buffer[i..j + |EndMarker|];
      m[..|StartMarker|] == StartMarker && m[|m| - |EndMarker|..] == EndMarker
  {
    MarkersApart(buffer, i, j);
    var m := buffer[i..j + 4];
    assert m[..5] == buffer[i..i + 5];
    assert m[|m| - 4..] == buffer[j..j + 4];
  }

  /** When the first `START` (at `i`) comes before the first `STOP` (at `j`), the
      captured message is exactly the span from that `START` to the end of that
      `STOP`: it begins with `START`, ends with `STOP`, and strip leaves it
      alone. The buffer keeps what follows that `STOP`. */
  lemma {:induction false} FramedMessage(buffer: string, i: int, j: int)
    requires Framed(buffer)
    requires i == Find(buffer, StartMarker) && j == Find(buffer, EndMarker) && i < j
    ensures i + |StartMarker| + |EndMarker| <= j + |EndMarker| <= |buffer|
    ensures Extract(buffer) == Some(Extraction(buffer[i..j + |EndMarker|], buffer[j + |EndMarker|..]))
    ensures var m := buffer[i..j + |EndMarker|];
      m[..|StartMarker|] == StartMarker && m[|m| - |EndMarker|..] == EndMarker
  {
    SpanBetweenMarkers(buffer, i, j);
    FramedExtract(buffer, i, j);
  }

  /** `Extract` on a buffer whose first `START` precedes its first `STOP`. */
  lemma FramedExtract(buffer: string, i: int, j: int)
    requires Framed(buffer)
    requires i == Find(buffer, StartMarker) && j == Find(buffer, EndMarker) && i < j
    ensures j + |EndMarker| <= |buffer|
    ensures Extract(buffer) == Some(Extraction(buffer[i..j + |EndMarker|], buffer[j + |EndMarker|..]))
  {
    SpanUnstripped(buffer, i, j);
    ExtractFramed(buffer, i, j);
    CutIs(buffer, i, j, buffer[i..j + |EndMarker|]);
  }

  /** `Cut` with a known stripped slice `m`. */
  lemma CutIs(buffer: string, i: nat, j: nat, m: string)
    requires j + |EndMarker| <= |buffer| && Strip(Slice(buffer, i, j + |EndMarker|)) == m
    ensures Cut(buffer, i, j) == Extraction(m, buffer[j + |EndMarker|..])
  {
  }

  /** The span between a `START` and a later `STOP` is captured unstripped. */
  lemma SpanUnstripped(buffer: string, i: int, j: int)
    requires OccursAt(buffer, StartMarker, i) && OccursAt(buffer, EndMarker, j) && i < j
    ensures j + |EndMarker| <= |buffer|
    ensures Strip(Slice(buffer, i, j + |EndMarker|)) == buffer[i..j + |EndMarker|]
  {
    SpanBetweenMarkers(buffer, i, j);
    var m := buffer[i..j + 4];
    assert Slice(buffer, i, j + 4) == m;
    FrameUnstripped(m);
  }

  /** A text that begins with `START` and ends with `STOP` has no whitespace to
      strip. */
  lemma FrameUnstripped(m: string)
    requires |m| >= |StartMarker| && m[..|StartMarker|] == StartMarker
    requires |m| >= |EndMarker| && m[|m| - |EndMarker|..] == EndMarker
    ensures Strip(m) == m
  {
    assert m[0] == m[..5][0] == 'S';
    assert m[|m| - 1] == m[|m| - 4..][3] == 'P';
    StripUnchanged(m);
  }

  /** When the first `STOP` (at `j`) comes before the first `START` (at `i`), the
      slice is empty, so an empty message is captured while the buffer is still
      cut after that `STOP`. */
  lemma {:induction false} StopFirstCapturesEmpty(buffer: string, i: int, j: int)
    requires Framed(buffer)
    requires i == Find(buffer, StartMarker) && j == Find(buffer, EndMarker) && j < i
    ensures j + |EndMarker| <= |buffer|
    ensures Extract(buffer) == Some(Extraction("", buffer[j + |EndMarker|..]))
  {
    MarkersApart(buffer, i, j);
    ExtractFramed(buffer, i, j);
    assert Slice(buffer, i, j + 4) == "";
    CutIs(buffer, i, j, "");
  }

  /** A buffer holding a complete frame `first` followed by anything at all gives
      up `first` alone, and `second` stays in the buffer for the next line: one
      line leads to one extraction, never a loop over every buffered frame. */
  lemma SecondFrameWaits(first: string, second: string)
    requires |first| >= |StartMarker| + |EndMarker|
    requires first[..|StartMarker|] == StartMarker
    requires first[|first| - |EndMarker|..] == EndMarker
    requires !Contains(first[..|first| - 1], EndMarker)
    ensures Extract(first + second) == Some(Extraction(first, second))
  {
    var buffer, n := first + second, |first|;
    FirstStartOfFrame(first, second);
    FirstStopOfFrame(first, second);
    FramedMessage(buffer, 0, n - 4);
    assert buffer[0..n] == first && buffer[n..] == second;
  }

  /** In a frame followed by anything, the first `START` is at 0. */
  lemma FirstStartOfFrame(first: string, second: string)
    requires |first| >= |StartMarker| && first[..|StartMarker|] == StartMarker
    ensures Contains(first + second, StartMarker) && Find(first + second, StartMarker) == 0
  {
    var buffer := first + second;
    assert buffer[0..5] == first[..5];
    FindIs(buffer, StartMarker, 0);
  }

  /** In a frame followed by anything, the first `STOP` is the one that ends the
      frame. */
  lemma FirstStopOfFrame(first: string, second: string)
    requires |first| >= |EndMarker| && first[|first| - |EndMarker|..] == EndMarker
    requires !Contains(first[..|first| - 1], EndMarker)
    ensures Contains(first + second, EndMarker)
    ensures Find(first + second, EndMarker) == |first| - |EndMarker|
  {
    var buffer, n := first + second, |first|;
    assert buffer[n - 4..n] == first[n - 4..];
    forall k | 0 <= k < n - 4 ensures !OccursAt(buffer, EndMarker, k) {
      if OccursAt(buffer, EndMarker, k) {
        assert first[..n - 1][k..k + 4] == buffer[k..k + 4];
        assert OccursAt(first[..n - 1], EndMarker, k);
        assert false;
      }
    }
    FindIs(buffer, EndMarker, n - 4);
  }

  /** The reader loop's state: the pending text and the list of captured
      messages, each with its timestamp. */
  class MessageFramer {
    var buffer: string
    var captured: seq<(Timestamp, string)>

    /** The monitor is created with nothing captured, and no reader has yet
        buffered anything. */
    constructor ()
      ensures buffer == "" && captured == []
    {
      buffer := "";
      captured := [];
    }

    /** A reader thread starting (again, after a reconnect): its buffer begins
        empty, so a half-received frame of an earlier connection is dropped,
        while every message captured so far is kept. */
    method Restart()
      modifies this
      ensures buffer == "" && captured == old(captured)
    {
      buffer := "";
    }

    /** One pass of the read loop with the decoded `line` and the time `ts` at
        which an extracted message is stamped. An empty line (a read timeout)
        changes nothing. Otherwise the line is appended; if both markers are now
        present, one message is captured and the buffer is cut after the first
        `STOP`. Earlier captures are never touched. */
    method Feed(line: string, ts: Timestamp)
      modifies this
      ensures line == "" ==> buffer == old(buffer) && captured == old(captured)
      ensures line != "" ==> match Extract(old(buffer) + line)
        case None =>
          buffer == old(buffer) + line && captured == old(captured)
        case Some(e) =>
          buffer == e.rest && captured == old(captured) + [(ts, e.message)]
      ensures captured[..|old(captured)|] == old(captured)
      ensures |old(captured)| <= |captured| <= |old(captured)| + 1
    {
      if line != "" {
        buffer := buffer + line;
        if Contains(buffer, StartMarker) && Contains(buffer, EndMarker) {
          var startIndex := Find(buffer, StartMarker);
          var endIndex := Find(buffer, EndMarker) + |EndMarker|;
          var fullMessage := Strip(Slice(buffer, startIndex, endIndex));
          ExtractFramed(buffer, startIndex, endIndex - |EndMarker|);
          captured := captured + [(ts, fullMessage)];
          buffer := buffer[endIndex..];
        }
      }
    }
  }
}
