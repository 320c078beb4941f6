/**
 * AstroPix4 readouts (astropix_analysis/fmt.py): the bytes one DAQ read
 * returns, stripped of their trailing padding, stamped by the host with a
 * readout id and a time, written to disk behind a three-byte header, and
 * decoded into hits by skipping the idle bytes the chip sends between
 * frames.
 */
module Readout {
  import opened Wrappers
  import opened Bytes
  import opened Bits
  import opened Hit
  import opened Streams
  import Text

  const PADDING_BYTE: byte := 0xff
  const IDLE_BYTE: byte := 0xbc
  const HEADER: seq<byte> := [0xfe, 0xdc, 0xba]
  const HEADER_SIZE: nat := 3

  /** Sizes of the '<L' readout id, the '<Q' timestamp and the '<L' data length. */
  const ID_SIZE: nat := 4
  const TIMESTAMP_SIZE: nat := 8
  const LENGTH_SIZE: nat := 4

  /** Bytes of a record before its data. */
  const PREAMBLE_SIZE: nat := 19

  /** `bytes.rstrip(b)` for a single byte `b`. */
  function RStrip(s: seq<byte>, b: byte): (r: seq<byte>)
    ensures |r| <= |s| && r == s[..|r|]
    ensures r == [] || r[|r| - 1] != b
    ensures forall k :: |r| <= k < |s| ==> s[k] == b
    decreases |s|
  {
    if s != [] && s[|s| - 1] == b then RStrip(s[..|s| - 1], b) else s
  }

  /** An AstroPix4 readout: the data as stored, and what the host assigned to it. */
  datatype Readout = Readout(data: seq<byte>, readoutId: int, timestamp: int)

  /** The readout constructor: trailing padding bytes are stripped from the data. */
  function NewReadout(raw: seq<byte>, readoutId: int, timestamp: int): Readout
  {
    Readout(RStrip(raw, PADDING_BYTE), readoutId, timestamp)
  }

  /** What a call to `write` leaves in the file, and whether it finished without raising. */
  datatype Written = Written(bytes: seq<byte>, complete: bool)

  /**
   * `write`: the header, then the id, the timestamp and the data length
   * packed one after the other, then the data. A value that does not fit
   * its format makes `struct.pack` raise after what precedes it is written.
   */
  function RecordBytes(r: Readout): Written
  {
    var id := Pack(r.readoutId, ID_SIZE);
    if id.None? then Written(HEADER, false)
    else
      var ts := Pack(r.timestamp, TIMESTAMP_SIZE);
      if ts.None? then Written(HEADER + id.value, false)
      else
        var len := Pack(|r.data|, LENGTH_SIZE);
        if len.None? then Written(HEADER + id.value + ts.value, false)
        else Written(HEADER + id.value + ts.value + len.value + r.data, true)
  }

  /** `write`, on an output file; `ok` is false where the source raises. */
  method Write(r: Readout, out: OutputStream) returns (ok: bool)
    modifies out
    ensures out.bytes == old(out.bytes) + RecordBytes(r).bytes
    ensures ok == RecordBytes(r).complete
  {
    var id := Pack(r.readoutId, ID_SIZE);
    var ts := Pack(r.timestamp, TIMESTAMP_SIZE);
    var len := Pack(|r.data|, LENGTH_SIZE);
    ghost var written := HEADER;
    out.Write(HEADER);
    if id.None? {
      return false;
    }
    out.Write(id.value);
    Text.AppendAssoc(old(out.bytes), written, id.value);
    written := written + id.value;
    if ts.None? {
      return false;
    }
    out.Write(ts.value);
    Text.AppendAssoc(old(out.bytes), written, ts.value);
    written := written + ts.value;
    if len.None? {
      return false;
    }
    out.Write(len.value);
    Text.AppendAssoc(old(out.bytes), written, len.value);
    written := written + len.value;
    out.Write(r.data);
    Text.AppendAssoc(old(out.bytes), written, r.data);
    ok := true;
  }

  /** What `from_file` gives: None at the end of the file, a readout, or an exception. */
  datatype ReadResult = EndOfFile | Failure(message: string) | Got(readout: Readout)

  /**
   * `read_and_unpack` on the bytes of a file read from `pos`: an unsigned
   * little-endian field of `size` bytes, or None where `struct.unpack`
   * raises on a short read; and the position the file is left at.
   */
  function ReadField(s: seq<byte>, pos: nat, size: nat): (r: (Option<nat>, nat))
    requires pos <= |s|
    ensures pos <= r.1 <= |s|
    ensures r.0.Some? <==> r.1 == pos + size
  {
    var chunk := Text.Slice(s, pos, pos + size);
    (if |chunk| == size then Some(FromLittleEndian(chunk)) else None, pos + |chunk|)
  }

  /**
   * `from_file` on the bytes of a file read from `pos`: the result and the
   * position the file is left at. An empty header is the end of the file,
   * a wrong one raises, a short fixed-size field raises, and a short data
   * field is accepted as it is.
   */
  function ParseReadout(s: seq<byte>, pos: nat): (r: (ReadResult, nat))
    requires pos <= |s|
    ensures pos <= r.1 <= |s|
    ensures r.0.Got? ==> r.1 >= pos + PREAMBLE_SIZE
    ensures r.0 == EndOfFile <==> pos == |s|
  {
    var header := Text.Slice(s, pos, pos + HEADER_SIZE);
    var p1 := pos + |header|;
    if |header| == 0 then (EndOfFile, p1)
    else if header != HEADER then (Failure("invalid readout header"), p1)
    else ParseRecord(s, p1)
  }

  /** The rest of `from_file`, after a correct header: the three fixed-size fields, then the data. */
  function ParseRecord(s: seq<byte>, pos: nat): (r: (ReadResult, nat))
    requires pos <= |s|
    ensures pos <= r.1 <= |s|
    ensures r.0.Got? ==> r.1 >= pos + PREAMBLE_SIZE - HEADER_SIZE
    ensures r.0 != EndOfFile
  {
    var readoutId := ReadField(s, pos, ID_SIZE);
    if readoutId.0.None? then (Failure("unpack requires a buffer of 4 bytes"), readoutId.1)
    else
      var timestamp := ReadField(s, readoutId.1, TIMESTAMP_SIZE);
      if timestamp.0.None? then (Failure("unpack requires a buffer of 8 bytes"), timestamp.1)
      else
        var length := ReadField(s, timestamp.1, LENGTH_SIZE);
        if length.0.None? then (Failure("unpack requires a buffer of 4 bytes"), length.1)
        else
          var data := Text.Slice(s, length.1, length.1 + length.0.value);
          (Got(NewReadout(data, readoutId.0.value, timestamp.0.value)), length.1 + |data|)
  }

  /** `read_and_unpack`. */
  method ReadAndUnpack(input: InputStream, size: nat) returns (v: Option<nat>)
    requires input.Valid()
    modifies input
    ensures input.Valid() && input.bytes == old(input.bytes)
    ensures (v, input.pos) == ReadField(old(input.bytes), old(input.pos), size)
  {
    var chunk := input.Read(size);
    if |chunk| != size {
      return None;
    }
    v := Some(FromLittleEndian(chunk));
  }

  /** `from_file`. */
  method FromFile(input: InputStream) returns (r: ReadResult)
    requires input.Valid()
    modifies input
    ensures input.Valid() && input.bytes == old(input.bytes)
    ensures (r, input.pos) == ParseReadout(old(input.bytes), old(input.pos))
  {
    var header := input.Read(HEADER_SIZE);
    if |header| == 0 {
      return EndOfFile;
    }
    if header != HEADER {
      return Failure("invalid readout header");
    }
    ghost var s, p := input.bytes, input.pos;
    assert ParseReadout(old(input.bytes), old(input.pos)) == ParseRecord(s, p);
    var readoutId := ReadAndUnpack(input, ID_SIZE);
    if readoutId.None? {
      return Failure("unpack requires a buffer of 4 bytes");
    }
    var timestamp := ReadAndUnpack(input, TIMESTAMP_SIZE);
    if timestamp.None? {
      return Failure("unpack requires a buffer of 8 bytes");
    }
    var length := ReadAndUnpack(input, LENGTH_SIZE);
    if length.None? {
      return Failure("unpack requires a buffer of 4 bytes");
    }
    var data := input.Read(length.value);
    ParseRecordOf(s, p, readoutId.value, timestamp.value, length.value, data);
    r := Got(NewReadout(data, readoutId.value, timestamp.value));
  }

  // ---------------------------------------------------------------------
  // Properties of the record format

  /** The constructor's data never ends in padding, and stripping it again changes nothing. */
  lemma NewReadoutStripped(raw: seq<byte>, readoutId: int, timestamp: int)
    ensures var r := NewReadout(raw, readoutId, timestamp);
      r.data == raw[..|r.data|] &&
      (r.data == [] || r.data[|r.data| - 1] != PADDING_BYTE) &&
      NewReadout(r.data, readoutId, timestamp) == r
  {
    RStripStops(RStrip(raw, PADDING_BYTE), PADDING_BYTE);
  }

  lemma RStripStops(s: seq<byte>, b: byte)
    requires s == [] || s[|s| - 1] != b
    ensures RStrip(s, b) == s
  {
  }

  /** A readout that `write` stores completely and `from_file` reads back as it was. */
  predicate Storable(r: Readout)
  {
    0 <= r.readoutId < Pow256(ID_SIZE) && 0 <= r.timestamp < Pow256(TIMESTAMP_SIZE) &&
    |r.data| < Pow256(LENGTH_SIZE) && (r.data == [] || r.data[|r.data| - 1] != PADDING_BYTE)
  }

  /** `write` finishes exactly when the three fields fit their formats; the record is then PREAMBLE_SIZE bytes longer than the data. */
  lemma RecordComplete(r: Readout)
    ensures RecordBytes(r).complete <==>
      0 <= r.readoutId < Pow256(ID_SIZE) && 0 <= r.timestamp < Pow256(TIMESTAMP_SIZE) && |r.data| < Pow256(LENGTH_SIZE)
    ensures RecordBytes(r).complete ==> |RecordBytes(r).bytes| == PREAMBLE_SIZE + |r.data|
    ensures RecordBytes(r).bytes[..HEADER_SIZE] == HEADER
  {
  }

  lemma SliceWithin(s: seq<byte>, pos: nat, w: seq<byte>, a: nat, b: nat)
    requires pos + |w| <= |s| && s[pos..pos + |w|] == w && a <= b <= |w|
    ensures Text.Slice(s, pos + a, pos + b) == w[a..b]
  {
    if a < b {
      forall k | 0 <= k < b - a
        ensures s[pos + a..pos + b][k] == w[a..b][k]
      {
        assert s[pos..pos + |w|][a + k] == s[pos + a + k];
      }
      assert s[pos + a..pos + b] == w[a..b];
    }
  }

  lemma ReadFieldWithin(s: seq<byte>, pos: nat, w: seq<byte>, a: nat, b: nat)
    requires pos + |w| <= |s| && s[pos..pos + |w|] == w && a <= b <= |w|
    ensures ReadField(s, pos + a, b - a) == (Some(FromLittleEndian(w[a..b])), pos + b)
  {
    SliceWithin(s, pos, w, a, b);
  }

  /** ParseRecord once its three fields and its data are known. */
  lemma ParseRecordOf(s: seq<byte>, p: nat, readoutId: nat, timestamp: nat, length: nat, data: seq<byte>)
    requires p <= |s|
    requires ReadField(s, p, ID_SIZE) == (Some(readoutId), p + 4)
    requires ReadField(s, p + 4, TIMESTAMP_SIZE) == (Some(timestamp), p + 12)
    requires ReadField(s, p + 12, LENGTH_SIZE) == (Some(length), p + 16)
    requires Text.Slice(s, p + 16, p + 16 + length) == data
    ensures ParseRecord(s, p) == (Got(NewReadout(data, readoutId, timestamp)), p + 16 + |data|)
  {
  }

  /** Where each part of a stored record sits, and what it unpacks to. */
  lemma RecordParts(r: Readout)
    requires Storable(r)
    ensures RecordBytes(r).complete
    ensures var w := RecordBytes(r).bytes;
      |w| == PREAMBLE_SIZE + |r.data| && w[0..3] == HEADER &&
      FromLittleEndian(w[3..7]) == r.readoutId && FromLittleEndian(w[7..15]) == r.timestamp &&
      FromLittleEndian(w[15..19]) == |r.data| && w[19..] == r.data
  {
    var id, ts, len := Pack(r.readoutId, ID_SIZE).value, Pack(r.timestamp, TIMESTAMP_SIZE).value, Pack(|r.data|, LENGTH_SIZE).value;
    var w := HEADER + id + ts + len + r.data;
    assert RecordBytes(r).bytes == w;
    assert w[0..3] == HEADER && w[3..7] == id && w[7..15] == ts && w[15..19] == len && w[19..] == r.data;
  }

  /**
   * What `write` stores, `from_file` reads back: wherever a stored
   * readout's record sits in a file, reading from its start gives the
   * readout and leaves the file at the record's end.
   */
  lemma ReadoutRoundTrip(r: Readout, s: seq<byte>, pos: nat, w: seq<byte>)
    requires Storable(r) && w == RecordBytes(r).bytes
    requires pos + |w| <= |s| && s[pos..pos + |w|] == w
    ensures RecordBytes(r).complete
    ensures ParseReadout(s, pos) == (Got(r), pos + |w|)
  {
    RecordParts(r);
    StoredRecordAt(s, pos, w, r);
  }

  /** The record of a storable readout, found in `s` at `pos`, parses back to that readout. */
  lemma StoredRecordAt(s: seq<byte>, pos: nat, w: seq<byte>, r: Readout)
    requires Storable(r)
    requires |w| == PREAMBLE_SIZE + |r.data| && w[0..3] == HEADER
    requires FromLittleEndian(w[3..7]) == r.readoutId && FromLittleEndian(w[7..15]) == r.timestamp
    requires FromLittleEndian(w[15..19]) == |r.data| && w[19..] == r.data
    requires pos + |w| <= |s| && s[pos..pos + |w|] == w
    ensures ParseReadout(s, pos) == (Got(r), pos + |w|)
  {
    ParseRecordAt(s, pos, w, r.readoutId, r.timestamp, r.data);
    RStripStops(r.data, PADDING_BYTE);
  }

  lemma ParseRecordAt(s: seq<byte>, pos: nat, w: seq<byte>, readoutId: nat, timestamp: nat, data: seq<byte>)
    requires |w| == PREAMBLE_SIZE + |data| && w[0..3] == HEADER
    requires FromLittleEndian(w[3..7]) == readoutId && FromLittleEndian(w[7..15]) == timestamp
    requires FromLittleEndian(w[15..19]) == |data| && w[19..] == data
    requires pos + |w| <= |s| && s[pos..pos + |w|] == w
    ensures ParseReadout(s, pos) == (Got(NewReadout(data, readoutId, timestamp)), pos + |w|)
  {
    HeaderAt(s, pos, w);
    RecordBodyAt(s, pos, w);
  }

  /** A record found in `s` at `pos`: its header is read, and `from_file` goes on with the fields after it. */
  lemma HeaderAt(s: seq<byte>, pos: nat, w: seq<byte>)
    requires HEADER_SIZE <= |w| && w[0..3] == HEADER
    requires pos + |w| <= |s| && s[pos..pos + |w|] == w
    ensures ParseReadout(s, pos) == ParseRecord(s, pos + HEADER_SIZE)
  {
    SliceWithin(s, pos, w, 0, 3);
    HeaderThenRecord(s, pos);
  }

  /** A record found in `s` at `pos`: the fields after its header, and its data, read back. */
  lemma RecordBodyAt(s: seq<byte>, pos: nat, w: seq<byte>)
    requires PREAMBLE_SIZE <= |w| && FromLittleEndian(w[15..19]) == |w| - PREAMBLE_SIZE
    requires pos + |w| <= |s| && s[pos..pos + |w|] == w
    ensures ParseRecord(s, pos + HEADER_SIZE) ==
      (Got(NewReadout(w[19..], FromLittleEndian(w[3..7]), FromLittleEndian(w[7..15]))), pos + |w|)
  {
    ReadFieldWithin(s, pos, w, 3, 7);
    ReadFieldWithin(s, pos, w, 7, 15);
    ReadFieldWithin(s, pos, w, 15, 19);
    SliceWithin(s, pos, w, 19, |w|);
    ParseRecordOf(s, pos + 3, FromLittleEndian(w[3..7]), FromLittleEndian(w[7..15]), |w| - PREAMBLE_SIZE, w[19..]);
  }

  /** After a correct header, `from_file` goes on with the three fields. */
  lemma HeaderThenRecord(s: seq<byte>, pos: nat)
    requires pos + HEADER_SIZE <= |s| && Text.Slice(s, pos, pos + HEADER_SIZE) == HEADER
    ensures ParseReadout(s, pos) == ParseRecord(s, pos + HEADER_SIZE)
  {
  }

  /**
   * A stored record cut short after `k` bytes: nothing at all is the end
   * of the file, a cut inside the header or the three fields raises, and a
   * cut inside the data gives a readout with the data cut short.
   */
  lemma ReadoutTruncated(r: Readout, k: nat)
    requires Storable(r) && k <= |RecordBytes(r).bytes|
    ensures k == 0 ==> ParseReadout(RecordBytes(r).bytes[..k], 0).0 == EndOfFile
    ensures 0 < k < PREAMBLE_SIZE ==> ParseReadout(RecordBytes(r).bytes[..k], 0).0.Failure?
    ensures PREAMBLE_SIZE <= k ==>
      ParseReadout(RecordBytes(r).bytes[..k], 0).0 == Got(NewReadout(r.data[..k - PREAMBLE_SIZE], r.readoutId, r.timestamp))
  {
    RecordParts(r);
    ParseRecordPrefix(RecordBytes(r).bytes, k, r.readoutId, r.timestamp, r.data);
  }

  lemma ParseRecordPrefix(w: seq<byte>, k: nat, readoutId: nat, timestamp: nat, data: seq<byte>)
    requires |w| == PREAMBLE_SIZE + |data| && k <= |w| && w[0..3] == HEADER
    requires FromLittleEndian(w[3..7]) == readoutId && FromLittleEndian(w[7..15]) == timestamp
    requires FromLittleEndian(w[15..19]) == |data| && w[19..] == data
    ensures k == 0 ==> ParseReadout(w[..k], 0).0 == EndOfFile
    ensures 0 < k < PREAMBLE_SIZE ==> ParseReadout(w[..k], 0).0.Failure?
    ensures PREAMBLE_SIZE <= k ==>
      ParseReadout(w[..k], 0).0 == Got(NewReadout(data[..k - PREAMBLE_SIZE], readoutId, timestamp))
  {
    var s := w[..k];
    assert s[0..k] == s;
    if 0 < k < HEADER_SIZE {
      assert |Text.Slice(s, 0, HEADER_SIZE)| == k;
    } else if HEADER_SIZE <= k {
      assert s[0..3] == w[0..3];
      SliceWithin(s, 0, s, 0, 3);
      if k < 7 {
        assert |Text.Slice(s, 3, 7)| < 4;
      } else {
        assert s[3..7] == w[3..7];
        ReadFieldWithin(s, 0, s, 3, 7);
        if k < 15 {
          assert |Text.Slice(s, 7, 15)| < 8;
        } else {
          assert s[7..15] == w[7..15];
          ReadFieldWithin(s, 0, s, 7, 15);
          if k < 19 {
            assert |Text.Slice(s, 15, 19)| < 4;
          } else {
            assert s[15..19] == w[15..19];
            ReadFieldWithin(s, 0, s, 15, 19);
            assert s[19..k] == data[..k - PREAMBLE_SIZE];
            assert Text.Slice(s, 19, 19 + |data|) == s[19..k];
            ParseRecordOf(s, 3, readoutId, timestamp, |data|, data[..k - PREAMBLE_SIZE]);
          }
        }
      }
    }
  }

  // ---------------------------------------------------------------------
  // Decoding

  /** The first position at or after `pos` that does not hold an idle byte. */
  function SkipIdle(s: seq<byte>, pos: nat): (r: nat)
    ensures pos <= r
    ensures pos <= |s| ==> r <= |s|
    ensures pos > |s| ==> r == pos
    ensures r < |s| ==> s[r] != IDLE_BYTE
    decreases |s| - pos
  {
    if pos < |s| && s[pos] == IDLE_BYTE then SkipIdle(s, pos + 1) else pos
  }

  /** The frame of `size` bytes starting at `p`, cut short at the end of the data. */
  function Frame(s: seq<byte>, p: nat, size: nat): (r: seq<byte>)
    ensures |r| <= size
  {
    Text.Slice(s, p, p + size)
  }

  /**
   * The frames `decode` slices from position `pos` of the readout data on:
   * skip the idle bytes, take the next `size` bytes (fewer where the data
   * ends), skip the idle bytes after them, and go on while the position is
   * inside the data.
   */
  function FramesFrom(s: seq<byte>, pos: nat, size: nat): FrameList
    requires size > 0
    decreases |s| - pos
  {
    if pos >= |s| then NoFrames
    else
      var p := SkipIdle(s, pos);
      Frames(Frame(s, p, size), FramesFrom(s, SkipIdle(s, p + size), size))
  }

  /** Frames in the order they were sliced. */
  datatype FrameList = NoFrames | Frames(first: seq<byte>, rest: FrameList)

  /** The frames of a sequence, first to last. */
  function ListOf(frames: seq<seq<byte>>): FrameList
    decreases |frames|
  {
    if frames == [] then NoFrames else Frames(frames[0], ListOf(frames[1..]))
  }

  /**
   * The hit `decode` builds from a frame of an AstroPix4 readout: the bit
   * order reversed when asked, then `HIT_CLASS(data, readout_id, timestamp)`;
   * None where that raises.
   */
  function HitBuilder(r: Readout, reverse: bool): seq<byte> -> Option<AstroPix4Hit>
  {
    frame => AstroPix4HitOf(Oriented(frame, reverse), r.readoutId, r.timestamp)
  }

  /** A frame as the hit class sees it: bit order reversed when asked. */
  function Oriented(frame: seq<byte>, reverse: bool): (r: seq<byte>)
    ensures |r| == |frame|
  {
    if reverse then ReverseBitOrder(frame) else frame
  }

  function PrependHit<H>(h: H, rest: Result<seq<H>, string>): Result<seq<H>, string>
  {
    match rest
    case Ok(hs) => Ok([h] + hs)
    case Err(e) => Err(e)
  }

  /** The hits built from the frames, in order; the first frame no hit can be built from raises. */
  function BuildHits<H>(frames: FrameList, build: seq<byte> -> Option<H>): Result<seq<H>, string>
  {
    match frames
    case NoFrames => Ok([])
    case Frames(f, rest) =>
      var hit := build(f);
      if hit.None? then Err("truncated hit") else PrependHit(hit.value, BuildHits(rest, build))
  }

  /** What `decode` returns for an AstroPix4 readout. */
  function DecodeSpec(r: Readout, reverse: bool): Result<seq<AstroPix4Hit>, string>
  {
    BuildHits(FramesFrom(r.data, 0, ASTROPIX4_SIZE), HitBuilder(r, reverse))
  }

  function Concat<H>(hits: seq<H>, rest: Result<seq<H>, string>): Result<seq<H>, string>
  {
    match rest
    case Ok(hs) => Ok(hits + hs)
    case Err(e) => Err(e)
  }

  /** The idle-skipping loop of `decode`, which it runs before and after every frame. */
  method SkipIdleBytes(s: seq<byte>, start: nat) returns (pos: nat)
    ensures pos == SkipIdle(s, start)
  {
    pos := start;
    while pos < |s| && s[pos] == IDLE_BYTE
      invariant start <= pos
      invariant SkipIdle(s, start) == SkipIdle(s, pos)
    {
      pos := pos + 1;
    }
  }

  /** The body of the `decode` loop after the idle bytes: slice a frame, reverse it if asked, build the hit. */
  method HitAt(r: Readout, pos: nat, reverse: bool) returns (hit: Option<AstroPix4Hit>)
    ensures hit == HitBuilder(r, reverse)(Frame(r.data, pos, ASTROPIX4_SIZE))
  {
    var s := r.data;
    var data := Text.Slice(s, pos, pos + ASTROPIX4_SIZE);
    if reverse {
      data := ReverseBitOrder(data);
    }
    hit := NewAstroPix4Hit(data, r.readoutId, r.timestamp);
  }

  /** `decode`: the loop over the readout data, with its two idle-skipping loops. */
  method Decode(r: Readout, reverse: bool) returns (res: Result<seq<AstroPix4Hit>, string>)
    ensures res == DecodeSpec(r, reverse)
  {
    var s := r.data;
    ghost var build := HitBuilder(r, reverse);
    var hits: seq<AstroPix4Hit> := [];
    var pos := 0;
    ConcatEmpty(DecodeSpec(r, reverse));
    while pos < |s|
      invariant DecodeSpec(r, reverse) == Concat(hits, BuildHits(FramesFrom(s, pos, ASTROPIX4_SIZE), build))
      decreases |s| - pos
    {
      ghost var start := pos;
      pos := SkipIdleBytes(s, pos);
      var hit := HitAt(r, pos, reverse);
      ghost var frame, rest := Frame(s, pos, ASTROPIX4_SIZE), FramesFrom(s, SkipIdle(s, pos + ASTROPIX4_SIZE), ASTROPIX4_SIZE);
      FramesUnfold(s, start, pos, ASTROPIX4_SIZE);
      if hit.None? {
        BuildFailure(hits, frame, rest, build);
        return Err("truncated hit");
      }
      BuildAdvance(hits, frame, rest, build, hit.value);
      hits := hits + [hit.value];
      pos := SkipIdleBytes(s, pos + ASTROPIX4_SIZE);
    }
    ConcatDone(hits, BuildHits(FramesFrom(s, pos, ASTROPIX4_SIZE), build));
    res := Ok(hits);
  }

  /** One step of FramesFrom from a position inside the data, with its frame start named. */
  lemma FramesUnfold(s: seq<byte>, pos: nat, p: nat, size: nat)
    requires size > 0 && pos < |s| && p == SkipIdle(s, pos)
    ensures FramesFrom(s, pos, size) == Frames(Frame(s, p, size), FramesFrom(s, SkipIdle(s, p + size), size))
  {
  }

  /** A frame whose hit can be built: the hit joins the list. */
  lemma BuildAdvance<H>(hits: seq<H>, f: seq<byte>, rest: FrameList, build: seq<byte> -> Option<H>, h: H)
    requires build(f) == Some(h)
    ensures Concat(hits, BuildHits(Frames(f, rest), build)) == Concat(hits + [h], BuildHits(rest, build))
  {
    match BuildHits(rest, build) {
      case Ok(hs) => assert hits + ([h] + hs) == (hits + [h]) + hs;
      case Err(_) =>
    }
  }

  /** A frame whose hit cannot be built: decoding raises. */
  lemma BuildFailure<H>(hits: seq<H>, f: seq<byte>, rest: FrameList, build: seq<byte> -> Option<H>)
    requires build(f).None?
    ensures Concat(hits, BuildHits(Frames(f, rest), build)) == Err("truncated hit")
  {
  }

  lemma ConcatEmpty<H>(rest: Result<seq<H>, string>)
    ensures Concat([], rest) == rest
  {
    match rest {
      case Ok(hs) => assert [] + hs == hs;
      case Err(_) =>
    }
  }

  lemma ConcatDone<H>(hits: seq<H>, rest: Result<seq<H>, string>)
    requires rest == Ok([])
    ensures Concat(hits, rest) == Ok(hits)
  {
    assert hits + [] == hits;
  }

  // ---------------------------------------------------------------------
  // Properties of decoding

  /** `n` idle bytes. */
  function Idles(n: nat): (r: seq<byte>)
    ensures |r| == n && forall k :: 0 <= k < n ==> r[k] == IDLE_BYTE
  {
    seq(n, _ => IDLE_BYTE)
  }

  /** `n` padding bytes. */
  function Padding(n: nat): (r: seq<byte>)
    ensures |r| == n && forall k :: 0 <= k < n ==> r[k] == PADDING_BYTE
  {
    seq(n, _ => PADDING_BYTE)
  }

  /** Frames, each behind its own run of idle bytes, then a final run of idle bytes. */
  function Framed(gaps: seq<nat>, frames: seq<seq<byte>>, tail: nat): seq<byte>
    requires |gaps| == |frames|
  {
    if frames == [] then Idles(tail) else Idles(gaps[0]) + frames[0] + Framed(gaps[1..], frames[1..], tail)
  }

  /** With a final run of idle bytes, framed data ends in an idle byte. */
  lemma {:induction false} FramedEndsIdle(gaps: seq<nat>, frames: seq<seq<byte>>, tail: nat)
    requires |gaps| == |frames| && tail > 0
    ensures var f := Framed(gaps, frames, tail); |f| > 0 && f[|f| - 1] == IDLE_BYTE
    decreases |frames|
  {
    if frames != [] {
      FramedEndsIdle(gaps[1..], frames[1..], tail);
    }
  }

  /** Frames of the hit size that do not start with an idle byte. */
  predicate WellFramed(frames: seq<seq<byte>>, size: nat)
  {
    forall i :: 0 <= i < |frames| ==> |frames[i]| == size && size > 0 && frames[i][0] != IDLE_BYTE
  }

  lemma WellFramedTail(frames: seq<seq<byte>>, size: nat)
    requires WellFramed(frames, size) && frames != []
    ensures WellFramed(frames[1..], size)
    ensures |frames[0]| == size && size > 0 && frames[0][0] != IDLE_BYTE
  {
    var later := frames[1..];
    forall i | 0 <= i < |later|
      ensures |later[i]| == size && size > 0 && later[i][0] != IDLE_BYTE
    {
      var j := i + 1;
      assert 0 <= j < |frames| && later[i] == frames[j];
    }
    assert 0 < |frames|;
  }

  /** Everything SkipIdle skips is an idle byte. */
  lemma {:induction false} SkipIdleRun(s: seq<byte>, pos: nat)
    ensures forall k :: pos <= k < SkipIdle(s, pos) ==> s[k] == IDLE_BYTE
    decreases |s| - pos
  {
    if pos < |s| && s[pos] == IDLE_BYTE {
      SkipIdleRun(s, pos + 1);
    }
  }

  /** SkipIdle stops at the first byte that is not idle. */
  lemma {:induction false} SkipIdleTo(s: seq<byte>, pos: nat, q: nat)
    requires pos <= q <= |s|
    requires forall k :: pos <= k < q ==> s[k] == IDLE_BYTE
    requires q == |s| || s[q] != IDLE_BYTE
    ensures SkipIdle(s, pos) == q
    decreases q - pos
  {
    if pos < q {
      SkipIdleTo(s, pos + 1, q);
    }
  }

  /** The bytes of `s` from `a` up to `b` are all idle. */
  predicate IdleRun(s: seq<byte>, a: nat, b: nat)
  {
    b <= |s| && forall k :: a <= k < b ==> s[k] == IDLE_BYTE
  }

  /**
   * `s` holds, from `q` on, the frames of `size` bytes, each behind its run
   * of idle bytes and starting with a byte that is not idle, then nothing
   * but idle bytes.
   */
  predicate FramedAt(s: seq<byte>, q: nat, gaps: seq<nat>, frames: seq<seq<byte>>, size: nat)
    requires |gaps| == |frames|
    decreases |frames|
  {
    if frames == [] then q <= |s| && IdleRun(s, q, |s|)
    else
      q + gaps[0] < |s| && q + gaps[0] + size <= |s| && IdleRun(s, q, q + gaps[0]) && s[q + gaps[0]] != IDLE_BYTE &&
      Frame(s, q + gaps[0], size) == frames[0] &&
      FramedAt(s, q + gaps[0] + size, gaps[1..], frames[1..], size)
  }

  /** Framed data found in `s` from `q` on: where its first frame starts, and the frame's bytes. */
  lemma FrameStart(s: seq<byte>, q: nat, gaps: seq<nat>, frames: seq<seq<byte>>, tail: nat, size: nat)
    requires |gaps| == |frames| && frames != [] && |frames[0]| == size && size > 0 && frames[0][0] != IDLE_BYTE
    requires q <= |s| && s[q..] == Framed(gaps, frames, tail)
    ensures q + gaps[0] < |s| && q + gaps[0] + size <= |s| && IdleRun(s, q, q + gaps[0]) && s[q + gaps[0]] != IDLE_BYTE
    ensures Frame(s, q + gaps[0], size) == frames[0]
  {
    var g, f := gaps[0], frames[0];
    var u := Idles(g) + f + Framed(gaps[1..], frames[1..], tail);
    assert s[q..] == u;
    assert |u| >= g + size;
    forall k | q <= k < q + g
      ensures s[k] == IDLE_BYTE
    {
      assert s[k] == u[k - q];
    }
    assert s[q + g] == u[g] == f[0];
    var frame := Frame(s, q + g, size);
    assert |frame| == size;
    forall k | 0 <= k < size
      ensures frame[k] == f[k]
    {
      assert frame[k] == s[q + g + k] == u[g + k];
    }
  }

  /** Framed data found in `s` from `q` on: the rest of it follows the first frame. */
  lemma FrameRest(s: seq<byte>, q: nat, gaps: seq<nat>, frames: seq<seq<byte>>, tail: nat, size: nat)
    requires |gaps| == |frames| && frames != [] && |frames[0]| == size
    requires q <= |s| && s[q..] == Framed(gaps, frames, tail)
    ensures q + gaps[0] + size <= |s| && s[q + gaps[0] + size..] == Framed(gaps[1..], frames[1..], tail)
  {
    var rest := Framed(gaps[1..], frames[1..], tail);
    var u := Idles(gaps[0]) + frames[0] + rest;
    assert s[q..] == u;
    assert |u| == gaps[0] + size + |rest|;
    assert s[q + gaps[0] + size..] == u[gaps[0] + size..];
    assert u[gaps[0] + size..] == rest;
  }

  /** Data built by Framed, found in `s` from `q` on, lays its frames out as FramedAt says. */
  lemma {:induction false} FramedAtOf(s: seq<byte>, q: nat, gaps: seq<nat>, frames: seq<seq<byte>>, tail: nat, size: nat)
    requires size > 0 && |gaps| == |frames| && WellFramed(frames, size)
    requires q <= |s| && s[q..] == Framed(gaps, frames, tail)
    ensures FramedAt(s, q, gaps, frames, size)
    decreases |frames|
  {
    if frames == [] {
      forall k | q <= k < |s|
        ensures s[k] == IDLE_BYTE
      {
        assert s[k] == s[q..][k - q];
      }
    } else {
      WellFramedTail(frames, size);
      FrameStart(s, q, gaps, frames, tail, size);
      FrameRest(s, q, gaps, frames, tail, size);
      FramedAtOf(s, q + gaps[0] + size, gaps[1..], frames[1..], tail, size);
    }
  }

  /** Frames laid out from `q` on: from the first frame, `decode` slices exactly those frames, in order. */
  lemma {:induction false} FramesFramedAt(s: seq<byte>, q: nat, gaps: seq<nat>, frames: seq<seq<byte>>, size: nat)
    requires size > 0 && |gaps| == |frames| && FramedAt(s, q, gaps, frames, size)
    ensures FramesFrom(s, SkipIdle(s, q), size) == ListOf(frames)
    decreases |frames|
  {
    if frames == [] {
      SkipIdleTo(s, q, |s|);
    } else {
      var p := q + gaps[0];
      SkipIdleTo(s, q, p);
      SkipIdleTo(s, p, p);
      FramesFramedAt(s, p + size, gaps[1..], frames[1..], size);
      FramesCons(s, p, frames[0], ListOf(frames[1..]), size);
    }
  }

  /** A frame where SkipIdle stops, then whatever the data after it slices into. */
  lemma FramesCons(s: seq<byte>, p: nat, f: seq<byte>, later: FrameList, size: nat)
    requires size > 0 && p < |s| && SkipIdle(s, p) == p && Frame(s, p, size) == f
    requires FramesFrom(s, SkipIdle(s, p + size), size) == later
    ensures FramesFrom(s, p, size) == Frames(f, later)
  {
    FramesUnfold(s, p, p, size);
  }

  /** Starting at the end of an idle run is the same as starting at its beginning, inside the data. */
  lemma FramesFromSkipped(s: seq<byte>, pos: nat, size: nat)
    requires size > 0 && SkipIdle(s, pos) < |s|
    ensures FramesFrom(s, SkipIdle(s, pos), size) == FramesFrom(s, pos, size)
  {
    var p := SkipIdle(s, pos);
    SkipIdleTo(s, p, p);
    FramesUnfold(s, pos, p, size);
    FramesUnfold(s, p, p, size);
  }

  /**
   * Frames of the hit size that start with a non-idle byte, with any
   * number of idle bytes before, between and after them: `decode` slices
   * exactly those frames, in order; idle bytes never reach a frame and
   * never shift one.
   */
  lemma FramesFramed(gaps: seq<nat>, frames: seq<seq<byte>>, tail: nat, size: nat)
    requires size > 0 && |gaps| == |frames| && WellFramed(frames, size)
    requires frames != [] || tail == 0
    ensures FramesFrom(Framed(gaps, frames, tail), 0, size) == ListOf(frames)
  {
    var s := Framed(gaps, frames, tail);
    assert s[0..] == s;
    FramedAtOf(s, 0, gaps, frames, tail, size);
    FramesFramedAt(s, 0, gaps, frames, size);
    if frames != [] {
      SkipIdleTo(s, 0, gaps[0]);
      FramesFromSkipped(s, 0, size);
    }
  }

  /** Idle bytes only (at least one): the idle bytes are skipped and the one frame left is empty. */
  lemma FramesAllIdle(n: nat, size: nat)
    requires size > 0 && n > 0
    ensures FramesFrom(Idles(n), 0, size) == Frames([], NoFrames)
  {
    SkipIdleTo(Idles(n), 0, n);
    FramesUnfold(Idles(n), 0, n, size);
    assert Frame(Idles(n), n, size) == [];
  }

  /** Frames from each of which a hit can be built. */
  predicate Buildable<H>(frames: seq<seq<byte>>, build: seq<byte> -> Option<H>)
  {
    forall i :: 0 <= i < |frames| ==> build(frames[i]).Some?
  }

  /** The hits built from each frame, in order. */
  function HitsOf<H>(frames: seq<seq<byte>>, build: seq<byte> -> Option<H>): (r: seq<H>)
    requires Buildable(frames, build)
    ensures |r| == |frames|
  {
    seq(|frames|, i requires 0 <= i < |frames| => build(frames[i]).value)
  }

  /**
   * Building the hits succeeds exactly when a hit can be built from every
   * frame, and then gives each frame's hit, in order.
   */
  lemma {:induction false} BuildHitsOk<H>(frames: seq<seq<byte>>, build: seq<byte> -> Option<H>)
    ensures BuildHits(ListOf(frames), build).Ok? <==> Buildable(frames, build)
    ensures Buildable(frames, build) ==> BuildHits(ListOf(frames), build) == Ok(HitsOf(frames, build))
    decreases |frames|
  {
    if frames != [] {
      var tail := frames[1..];
      assert forall i :: 0 <= i < |tail| ==> tail[i] == frames[i + 1];
      BuildHitsOk(tail, build);
      if Buildable(frames, build) {
        var hits := HitsOf(frames, build);
        assert hits == [hits[0]] + HitsOf(tail, build);
      } else if build(frames[0]).Some? {
        var i :| 0 <= i < |frames| && build(frames[i]).None?;
        assert tail[i - 1] == frames[i];
      }
    }
  }

  lemma {:induction false} RStripPadding(t: seq<byte>, n: nat)
    requires t == [] || t[|t| - 1] != PADDING_BYTE
    ensures RStrip(t + Padding(n), PADDING_BYTE) == t
  {
    if n == 0 {
      assert t + Padding(n) == t;
      RStripStops(t, PADDING_BYTE);
    } else {
      var s := t + Padding(n);
      assert s[..|s| - 1] == t + Padding(n - 1);
      RStripPadding(t, n - 1);
    }
  }

  /**
   * An AstroPix4 readout whose data, once the padding is stripped, is
   * frames of SIZE bytes separated by idle bytes decodes to one hit per
   * frame, in order: each hit is the one its frame (bit order reversed
   * when asked) builds.
   */
  lemma DecodeReadoutFramed(gaps: seq<nat>, frames: seq<seq<byte>>, tail: nat, padding: nat,
                            readoutId: int, timestamp: int, reverse: bool)
    requires |gaps| == |frames| && frames != [] && WellFramed(frames, ASTROPIX4_SIZE)
    requires var f := Framed(gaps, frames, tail); f[|f| - 1] != PADDING_BYTE
    ensures var r := NewReadout(Framed(gaps, frames, tail) + Padding(padding), readoutId, timestamp);
      r.data == Framed(gaps, frames, tail) && Buildable(frames, HitBuilder(r, reverse)) &&
      DecodeSpec(r, reverse) == Ok(HitsOf(frames, HitBuilder(r, reverse)))
  {
    var f := Framed(gaps, frames, tail);
    RStripPadding(f, padding);
    var r := NewReadout(f + Padding(padding), readoutId, timestamp);
    FramesBuild(r, reverse, frames);
    BuildFramed(gaps, frames, tail, HitBuilder(r, reverse));
  }

  /** Every frame of the hit size builds a hit. */
  lemma FramesBuild(r: Readout, reverse: bool, frames: seq<seq<byte>>)
    requires WellFramed(frames, ASTROPIX4_SIZE)
    ensures Buildable(frames, HitBuilder(r, reverse))
  {
    forall i | 0 <= i < |frames|
      ensures HitBuilder(r, reverse)(frames[i]).Some?
    {
      AstroPix4HitDefined(Oriented(frames[i], reverse), r.readoutId, r.timestamp);
    }
  }

  /** Framed data whose every frame builds a hit: the hits, one per frame, in order. */
  lemma BuildFramed<H>(gaps: seq<nat>, frames: seq<seq<byte>>, tail: nat, build: seq<byte> -> Option<H>)
    requires |gaps| == |frames| && frames != [] && WellFramed(frames, ASTROPIX4_SIZE) && Buildable(frames, build)
    ensures BuildHits(FramesFrom(Framed(gaps, frames, tail), 0, ASTROPIX4_SIZE), build) == Ok(HitsOf(frames, build))
  {
    FramesFramed(gaps, frames, tail, ASTROPIX4_SIZE);
    BuildHitsOk(frames, build);
  }

  /** A readout of nothing but idle bytes (at least one) makes `decode` raise: the hit class rejects the empty frame. */
  lemma DecodeReadoutAllIdle(n: nat, padding: nat, readoutId: int, timestamp: int, reverse: bool)
    requires n > 0
    ensures DecodeSpec(NewReadout(Idles(n) + Padding(padding), readoutId, timestamp), reverse).Err?
  {
    RStripPadding(Idles(n), padding);
    var r := NewReadout(Idles(n) + Padding(padding), readoutId, timestamp);
    FramesAllIdle(n, ASTROPIX4_SIZE);
    AstroPix4HitDefined(Oriented([], reverse), readoutId, timestamp);
  }
}
