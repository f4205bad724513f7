/** The barcode line assembler of the QR scanner script.

    Bytes read one at a time from the scanner are gathered in a buffer. A line
    feed or a carriage return ends a barcode: if the buffer holds anything, it
    is emitted as one scan and the buffer is emptied; a terminator on an empty
    buffer emits nothing. A read that returns no byte changes nothing. */
module QrScanner {
  import opened Wrappers

  newtype byte = b: int | 0 <= b < 256

  const LF: byte := 10
  const CR: byte := 13

  /** `\n` and `\r` end a barcode. */
  predicate IsTerminator(b: byte)
  {
    b == LF || b == CR
  }

  predicate TerminatorFree(s: seq<byte>)
  {
    forall k :: 0 <= k < |s| ==> !IsTerminator(s[k])
  }

  /** The number of terminators in `s`. */
  function Terminators(s: seq<byte>): nat
  {
    if s == [] then 0 else (if IsTerminator(s[0]) then 1 else 0) + Terminators(s[1..])
  }

  /** The bytes of `s` that are not terminators, in order. */
  function Payload(s: seq<byte>): seq<byte>
  {
    if s == [] then [] else (if IsTerminator(s[0]) then [] else [s[0]]) + Payload(s[1..])
  }

  /** All the pieces of `xs` joined end to end. */
  function Flatten(xs: seq<seq<byte>>): seq<byte>
  {
    if xs == [] then [] else xs[0] + Flatten(xs[1..])
  }

  /** `xs` without its empty pieces. */
  function NonEmpty(xs: seq<seq<byte>>): (r: seq<seq<byte>>)
    ensures |r| <= |xs|
    ensures forall k :: 0 <= k < |r| ==> r[k] != []
  {
    if xs == [] then []
    else (if xs[0] == [] then [] else [xs[0]]) + NonEmpty(xs[1..])
  }

  /** The reference segmentation of a byte stream: `s` cut at every terminator,
      terminators dropped. There is one more piece than there are terminators;
      the last piece is the scan still in progress. */
  function Split(s: seq<byte>): (pieces: seq<seq<byte>>)
    ensures |pieces| == Terminators(s) + 1
    ensures forall k :: 0 <= k < |pieces| ==> TerminatorFree(pieces[k])
  {
    if s == [] then [[]]
    else
      var tail := Split(s[1..]);
      if IsTerminator(s[0]) then [[]] + tail
      else [[s[0]] + tail[0]] + tail[1..]
  }

  /** The barcodes a stream `s` yields: every finished piece that is not empty. */
  function Completed(s: seq<byte>): (r: seq<seq<byte>>)
    ensures forall k :: 0 <= k < |r| ==> r[k] != [] && TerminatorFree(r[k])
  {
    var pieces := Split(s);
    NonEmptyKeeps(pieces[..|pieces| - 1]);
    NonEmpty(pieces[..|pieces| - 1])
  }

  /** The bytes of `s` after its last terminator: the scan still in progress. */
  function Pending(s: seq<byte>): (r: seq<byte>)
    ensures TerminatorFree(r)
  {
    var pieces := Split(s);
    pieces[|pieces| - 1]
  }

  /** Every piece kept by `NonEmpty` is a piece of its argument. */
  lemma {:induction false} NonEmptyKeeps(xs: seq<seq<byte>>)
    ensures forall k :: 0 <= k < |NonEmpty(xs)| ==> NonEmpty(xs)[k] in xs
  {
    if xs != [] {
      NonEmptyKeeps(xs[1..]);
      var head: seq<seq<byte>> := if xs[0] == [] then [] else [xs[0]];
      forall k | 0 <= k < |NonEmpty(xs)| ensures NonEmpty(xs)[k] in xs {
        if k >= |head| {
          assert NonEmpty(xs)[k] == NonEmpty(xs[1..])[k - |head|];
        }
      }
    }
  }

  /** A stream without terminators is a single, unfinished piece. */
  lemma {:induction false} SplitTerminatorFree(s: seq<byte>)
    requires TerminatorFree(s)
    ensures Split(s) == [s]
  {
    if s != [] {
      SplitTerminatorFree(s[1..]);
      assert [s[0]] + s[1..] == s;
    }
  }

  /** Appending a terminator to the stream closes the last piece and opens an
      empty one. */
  lemma {:induction false} SplitSnocTerminator(s: seq<byte>, b: byte)
    requires IsTerminator(b)
    ensures Split(s + [b]) == Split(s) + [[]]
  {
    if s == [] {
      assert [] + [b] == [b];
      assert Split([b]) == [[]] + Split([]);
    } else {
      var t := s[1..];
      assert (s + [b])[1..] == t + [b];
      assert (s + [b])[0] == s[0];
      SplitSnocTerminator(t, b);
      var p := Split(t);
      var q := Split(t + [b]);
      if !IsTerminator(s[0]) {
        assert Split(s + [b]) == [[s[0]] + q[0]] + q[1..];
        assert q[0] == p[0] && q[1..] == p[1..] + [[]];
      }
    }
  }

  /** `pieces` with byte `b` added to its last piece. */
  function ExtendLast(pieces: seq<seq<byte>>, b: byte): (r: seq<seq<byte>>)
    requires pieces != []
    ensures |r| == |pieces| && r[|r| - 1] == pieces[|pieces| - 1] + [b]
    ensures r[..|r| - 1] == pieces[..|pieces| - 1]
  {
    pieces[..|pieces| - 1] + [pieces[|pieces| - 1] + [b]]
  }

  /** Appending any other byte to the stream extends the last piece. */
  lemma {:induction false} SplitSnocByte(s: seq<byte>, b: byte)
    requires !IsTerminator(b)
    ensures Split(s + [b]) == ExtendLast(Split(s), b)
  {
    if s == [] {
      var e: seq<byte> := [];
      assert [] + [b] == [b];
      assert [b][1..] == [];
      assert [b] + e == [b];
      assert Split([b]) == [[b] + e] + [e][1..] == [[b]];
    } else {
      var t := s[1..];
      assert (s + [b])[1..] == t + [b];
      assert (s + [b])[0] == s[0];
      SplitSnocByte(t, b);
      if IsTerminator(s[0]) {
        ExtendAfterEmpty(Split(t), b);
      } else {
        ExtendAfterHead(s[0], Split(t), b);
      }
    }
  }

  /** Extending the last piece commutes with putting an empty piece in front. */
  lemma ExtendAfterEmpty(p: seq<seq<byte>>, b: byte)
    requires p != []
    ensures ExtendLast([[]] + p, b) == [[]] + ExtendLast(p, b)
  {
    assert ([[]] + p)[..|p|] == [[]] + p[..|p| - 1];
  }

  /** Extending the last piece commutes with putting a byte in front of the
      first piece. */
  lemma ExtendAfterHead(x: byte, p: seq<seq<byte>>, b: byte)
    requires p != []
    ensures var q := ExtendLast(p, b);
      ExtendLast([[x] + p[0]] + p[1..], b) == [[x] + q[0]] + q[1..]
  {
    var q := ExtendLast(p, b);
    if |p| == 1 {
      assert q == [p[0] + [b]];
      assert [x] + (p[0] + [b]) == ([x] + p[0]) + [b];
    } else {
      assert q[0] == p[0];
      assert q[1..] == p[1..|p| - 1] + [p[|p| - 1] + [b]];
      assert ([[x] + p[0]] + p[1..])[..|p| - 1] == [[x] + p[0]] + p[1..|p| - 1];
    }
  }

  /** Dropping empty pieces distributes over appending one piece. */
  lemma {:induction false} NonEmptySnoc(xs: seq<seq<byte>>, x: seq<byte>)
    ensures NonEmpty(xs + [x]) == NonEmpty(xs) + (if x == [] then [] else [x])
  {
    if xs == [] {
      assert [] + [x] == [x];
      assert [x][1..] == [];
    } else {
      assert (xs + [x])[1..] == xs[1..] + [x];
      NonEmptySnoc(xs[1..], x);
    }
  }

  /** One more byte on the stream: a terminator finishes the scan in progress
      (emitting it when it is not empty) and starts an empty one; any other byte
      extends the scan in progress and finishes nothing. */
  lemma {:induction false} StreamStep(s: seq<byte>, b: byte)
    ensures IsTerminator(b) ==>
      Pending(s + [b]) == [] &&
      Completed(s + [b]) == Completed(s) + (if Pending(s) == [] then [] else [Pending(s)])
    ensures !IsTerminator(b) ==>
      Pending(s + [b]) == Pending(s) + [b] && Completed(s + [b]) == Completed(s)
  {
    var p := Split(s);
    if IsTerminator(b) {
      SplitSnocTerminator(s, b);
      assert (p + [[]])[..|p|] == p;
      NonEmptySnoc(p[..|p| - 1], p[|p| - 1]);
      assert p[..|p| - 1] + [p[|p| - 1]] == p;
    } else {
      SplitSnocByte(s, b);
    }
  }

  /** The non-empty pieces hold all the bytes of the pieces. */
  lemma {:induction false} FlattenNonEmpty(xs: seq<seq<byte>>)
    ensures Flatten(NonEmpty(xs)) == Flatten(xs)
  {
    if xs != [] {
      FlattenNonEmpty(xs[1..]);
      if xs[0] == [] {
        assert NonEmpty(xs) == NonEmpty(xs[1..]);
        assert Flatten(xs) == [] + Flatten(xs[1..]) == Flatten(xs[1..]);
      } else {
        var r := [xs[0]] + NonEmpty(xs[1..]);
        assert NonEmpty(xs) == r;
        assert r[0] == xs[0] && r[1..] == NonEmpty(xs[1..]);
      }
    }
  }

  /** Joining the pieces gives back every non-terminator byte of the stream. */
  lemma {:induction false} FlattenSplit(s: seq<byte>)
    ensures Flatten(Split(s)) == Payload(s)
  {
    if s != [] {
      FlattenSplit(s[1..]);
      var tail := Split(s[1..]);
      if IsTerminator(s[0]) {
        assert ([[]] + tail)[1..] == tail;
      } else {
        var r := [[s[0]] + tail[0]] + tail[1..];
        assert r[1..] == tail[1..];
        assert Flatten(tail) == tail[0] + Flatten(tail[1..]);
      }
    }
  }

  /** Joining the pieces drops nothing but terminators. */
  lemma {:induction false} FlattenSnoc(xs: seq<seq<byte>>, x: seq<byte>)
    ensures Flatten(xs + [x]) == Flatten(xs) + x
  {
    if xs == [] {
      assert [] + [x] == [x];
      assert [x][1..] == [];
    } else {
      assert (xs + [x])[1..] == xs[1..] + [x];
      FlattenSnoc(xs[1..], x);
    }
  }

  /** The emitted barcodes, followed by the scan in progress, are exactly the
      non-terminator bytes received, in order: nothing is lost, duplicated or
      reordered. */
  lemma {:induction false} BarcodesCoverPayload(s: seq<byte>)
    ensures Flatten(Completed(s)) + Pending(s) == Payload(s)
  {
    var p := Split(s);
    FlattenNonEmpty(p[..|p| - 1]);
    FlattenSnoc(p[..|p| - 1], p[|p| - 1]);
    assert p[..|p| - 1] + [p[|p| - 1]] == p;
    FlattenSplit(s);
  }

  /** A scan ended by `\r\n` yields one barcode, not two. */
  lemma {:induction false} CrLfYieldsOneBarcode(scan: seq<byte>)
    requires scan != [] && TerminatorFree(scan)
    ensures Completed(scan + [CR, LF]) == [scan]
    ensures Pending(scan + [CR, LF]) == []
  {
    SplitTerminatorFree(scan);
    assert Completed(scan) == [] && Pending(scan) == scan;
    StreamStep(scan, CR);
    StreamStep(scan + [CR], LF);
    assert scan + [CR] + [LF] == scan + [CR, LF];
  }

  /** The bytes delivered by a sequence of readings, in order; a read that returned
      nothing contributes nothing. */
  function Received(readings: seq<Option<byte>>): (r: seq<byte>)
    ensures |r| <= |readings|
  {
    if readings == [] then []
    else
      Received(readings[..|readings| - 1])
      + match readings[|readings| - 1] case Some(b) => [b] case None => []
  }

  /** What the `i`-th read does to the scan in progress and to the barcodes of
      the stream received so far (preceded by `start`). */
  lemma ReadStep(start: seq<byte>, readings: seq<Option<byte>>, i: int)
    requires 0 <= i < |readings|
    ensures var s, s' := start + Received(readings[..i]), start + Received(readings[..i + 1]);
      match readings[i]
      case None => Pending(s') == Pending(s) && Completed(s') == Completed(s)
      case Some(b) =>
        (IsTerminator(b) ==>
          Pending(s') == [] &&
          Completed(s') == Completed(s) + (if Pending(s) == [] then [] else [Pending(s)]))
        && (!IsTerminator(b) ==>
          Pending(s') == Pending(s) + [b] && Completed(s') == Completed(s))
  {
    var s := start + Received(readings[..i]);
    assert readings[..i + 1][..i] == readings[..i];
    match readings[i] {
      case Some(b) =>
        assert start + Received(readings[..i + 1]) == s + [b];
        StreamStep(s, b);
      case None =>
        assert start + Received(readings[..i + 1]) == s;
    }
  }

  /** The scanner loop's state: the bytes of the scan in progress and the
      barcodes emitted so far. */
  class Scanner {
    var buffer: seq<byte>
    var scanned: seq<seq<byte>>

    /** The buffer never holds a terminator. */
    ghost predicate Valid()
      reads this
    {
      TerminatorFree(buffer)
    }

    /** The script starts with an empty buffer and nothing emitted. */
    constructor ()
      ensures Valid() && buffer == [] && scanned == []
    {
      buffer := [];
      scanned := [];
    }

    /** One pass of the read loop, given what `scanner.read()` returned. */
    method Step(read: Option<byte>)
      requires Valid()
      modifies this
      ensures Valid()
      ensures read.None? ==> buffer == old(buffer) && scanned == old(scanned)
      ensures read.Some? && !IsTerminator(read.value) ==>
        buffer == old(buffer) + [read.value] && scanned == old(scanned)
      ensures read.Some? && IsTerminator(read.value) ==>
        buffer == [] &&
        scanned == old(scanned) + (if old(buffer) == [] then [] else [old(buffer)])
    {
      match read
      case Some(b) =>
        if IsTerminator(b) {
          if buffer != [] {
            scanned := scanned + [buffer];
            buffer := [];
          }
        } else {
          buffer := buffer + [b];
        }
      case None =>
    }

    /** The read loop run over a finite sequence of readings: the buffer ends as the
        scan in progress and the emitted barcodes grow by exactly the barcodes
        the received bytes complete, as the reference segmentation gives them. */
    method Run(readings: seq<Option<byte>>)
      requires Valid()
      modifies this
      ensures Valid()
      ensures buffer == Pending(old(buffer) + Received(readings))
      ensures scanned == old(scanned) + Completed(old(buffer) + Received(readings))
    {
      ghost var start, before := buffer, scanned;
      SplitTerminatorFree(start);
      assert start + Received(readings[..0]) == start;
      var i := 0;
      while i < |readings|
        invariant 0 <= i <= |readings|
        invariant Valid()
        invariant buffer == Pending(start + Received(readings[..i]))
        invariant scanned == before + Completed(start + Received(readings[..i]))
        decreases |readings| - i
      {
        ReadStep(start, readings, i);
        Step(readings[i]);
        i := i + 1;
      }
      assert readings[..|readings|] == readings;
    }
  }
}
