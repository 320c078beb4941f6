/**
 * The AstroPix binary data format (astropix_analysis/fileio.py): a file
 * header (the magic word `%APXDF`, the length of the header content, then
 * the content serialized as JSON) followed by readout records, read back
 * one readout at a time until the end of the file, and converted to text
 * one line per decoded hit.
 */
module FileIO {
  import opened Wrappers
  import opened Bytes
  import opened Streams
  import opened Hit
  import opened Readout
  import Text

  /** `%APXDF` encoded in UTF-8. */
  const MAGIC: seq<byte> := [0x25, 0x41, 0x50, 0x58, 0x44, 0x46]
  const MAGIC_SIZE: nat := 6

  /** Size of the 'I' header length field. */
  const HEADER_LENGTH_SIZE: nat := 4

  const NOT_APX := "the file has not the .apx extension"
  const EXTENSION: string := ".apx"

  /**
   * `json.dumps` followed by UTF-8 encoding, and UTF-8 decoding followed by
   * `json.loads`, each None where it raises.
   */
  datatype JsonCodec<!C> = JsonCodec(dumps: C -> Option<seq<byte>>, loads: seq<byte> -> Option<C>)

  /** Content that serializes, and deserializes back to itself. */
  ghost predicate RoundTrips<C>(codec: JsonCodec<C>, content: C)
  {
    codec.dumps(content).Some? && codec.loads(codec.dumps(content).value) == Some(content)
  }

  /**
   * A file header. `__eq__` compares the contents, which for a record of
   * one field is equality of the records.
   */
  datatype FileHeader<C> = FileHeader(content: C)

  // ---------------------------------------------------------------------
  // The file header

  /**
   * `FileHeader.write`: the content is serialized first, so a content that
   * does not serialize writes nothing; then the magic word, the length as
   * 'I', and the serialized content. A length that does not fit 'I' makes
   * `struct.pack` raise after the magic word is written.
   */
  function HeaderBytes<C>(h: FileHeader<C>, codec: JsonCodec<C>): Written
  {
    var data := codec.dumps(h.content);
    if data.None? then Written([], false)
    else
      var length := Pack(|data.value|, HEADER_LENGTH_SIZE);
      if length.None? then Written(MAGIC, false)
      else Written(MAGIC + length.value + data.value, true)
  }

  /** `FileHeader.write`, on an output file; `ok` is false where the source raises. */
  method WriteHeader<C>(h: FileHeader<C>, codec: JsonCodec<C>, out: OutputStream) returns (ok: bool)
    modifies out
    ensures out.bytes == old(out.bytes) + HeaderBytes(h, codec).bytes
    ensures ok == HeaderBytes(h, codec).complete
  {
    var data := codec.dumps(h.content);
    if data.None? {
      return false;
    }
    out.Write(MAGIC);
    var length := Pack(|data.value|, HEADER_LENGTH_SIZE);
    if length.None? {
      return false;
    }
    out.Write(length.value);
    Text.AppendAssoc(old(out.bytes), MAGIC, length.value);
    out.Write(data.value);
    Text.AppendAssoc(old(out.bytes), MAGIC + length.value, data.value);
    ok := true;
  }

  /**
   * `FileHeader.read` on the bytes of a file read from `pos`: the header,
   * or the exception raised on a wrong magic word, a short length field or
   * a content that does not deserialize; and the position the file is
   * left at.
   */
  function ParseHeader<C>(codec: JsonCodec<C>, s: seq<byte>, pos: nat): (r: (Result<FileHeader<C>, string>, nat))
    requires pos <= |s|
    ensures pos <= r.1 <= |s|
  {
    var magic := Text.Slice(s, pos, pos + MAGIC_SIZE);
    var p1 := pos + |magic|;
    if magic != MAGIC then (Err("invalid magic word"), p1)
    else ParseHeaderContent(codec, s, p1)
  }

  /** The rest of `FileHeader.read`, after a correct magic word: the length, then the content. */
  function ParseHeaderContent<C>(codec: JsonCodec<C>, s: seq<byte>, pos: nat): (r: (Result<FileHeader<C>, string>, nat))
    requires pos <= |s|
    ensures pos <= r.1 <= |s|
  {
    var length := ReadField(s, pos, HEADER_LENGTH_SIZE);
    if length.0.None? then (Err("unpack requires a buffer of 4 bytes"), length.1)
    else
      var data := Text.Slice(s, length.1, length.1 + length.0.value);
      var content := codec.loads(data);
      (if content.None? then Err("invalid header content") else Ok(FileHeader(content.value)), length.1 + |data|)
  }

  /** `FileHeader.read`. */
  method ReadHeader<C>(codec: JsonCodec<C>, input: InputStream) returns (r: Result<FileHeader<C>, string>)
    requires input.Valid()
    modifies input
    ensures input.Valid() && input.bytes == old(input.bytes)
    ensures (r, input.pos) == ParseHeader(codec, old(input.bytes), old(input.pos))
  {
    var magic := input.Read(MAGIC_SIZE);
    if magic != MAGIC {
      return Err("invalid magic word");
    }
    ghost var s, p := input.bytes, input.pos;
    assert ParseHeader(codec, old(input.bytes), old(input.pos)) == ParseHeaderContent(codec, s, p);
    var length := ReadAndUnpack(input, HEADER_LENGTH_SIZE);
    if length.None? {
      return Err("unpack requires a buffer of 4 bytes");
    }
    var data := input.Read(length.value);
    var content := codec.loads(data);
    if content.None? {
      return Err("invalid header content");
    }
    r := Ok(FileHeader(content.value));
  }

  /** `write` finishes exactly when the content serializes to fewer than 2^32 bytes; it then writes 10 bytes more than those. */
  lemma HeaderComplete<C>(h: FileHeader<C>, codec: JsonCodec<C>)
    ensures HeaderBytes(h, codec).complete <==>
      codec.dumps(h.content).Some? && |codec.dumps(h.content).value| < Pow256(HEADER_LENGTH_SIZE)
    ensures HeaderBytes(h, codec).complete ==>
      |HeaderBytes(h, codec).bytes| == MAGIC_SIZE + HEADER_LENGTH_SIZE + |codec.dumps(h.content).value|
  {
  }

  /**
   * What `FileHeader.write` stores, `FileHeader.read` reads back, wherever
   * it sits in a file, when the content survives its JSON round trip: an
   * equal header, with the file left just past the content, at the first
   * readout record.
   */
  lemma HeaderRoundTrip<C>(h: FileHeader<C>, codec: JsonCodec<C>, s: seq<byte>, pos: nat, w: seq<byte>)
    requires RoundTrips(codec, h.content) && |codec.dumps(h.content).value| < Pow256(HEADER_LENGTH_SIZE)
    requires w == HeaderBytes(h, codec).bytes
    requires pos + |w| <= |s| && s[pos..pos + |w|] == w
    ensures HeaderBytes(h, codec).complete
    ensures ParseHeader(codec, s, pos) == (Ok(h), pos + |w|)
  {
    var data := codec.dumps(h.content).value;
    var length := Pack(|data|, HEADER_LENGTH_SIZE).value;
    HeaderParts(w, data, length);
    MagicAt(codec, s, pos, w);
    HeaderContentAt(codec, s, pos, w);
  }

  /** Where each part of a header sits. */
  lemma HeaderParts(w: seq<byte>, data: seq<byte>, length: seq<byte>)
    requires w == MAGIC + length + data && |length| == HEADER_LENGTH_SIZE
    ensures w[0..6] == MAGIC && w[6..10] == length && w[10..] == data
  {
  }

  /** A header found in `s` at `pos`: its magic word is accepted. */
  lemma MagicAt<C>(codec: JsonCodec<C>, s: seq<byte>, pos: nat, w: seq<byte>)
    requires MAGIC_SIZE <= |w| && w[0..6] == MAGIC
    requires pos + |w| <= |s| && s[pos..pos + |w|] == w
    ensures Text.Slice(s, pos, pos + MAGIC_SIZE) == MAGIC
  {
    SliceWithin(s, pos, w, 0, 6);
  }

  /** A header found in `s` at `pos`, its magic word accepted: the length and the content read back. */
  lemma HeaderContentAt<C>(codec: JsonCodec<C>, s: seq<byte>, pos: nat, w: seq<byte>)
    requires 10 <= |w| && Text.Slice(s, pos, pos + MAGIC_SIZE) == MAGIC
    requires FromLittleEndian(w[6..10]) == |w| - 10 && codec.loads(w[10..]).Some?
    requires pos + |w| <= |s| && s[pos..pos + |w|] == w
    ensures ParseHeader(codec, s, pos) == (Ok(FileHeader(codec.loads(w[10..]).value)), pos + |w|)
  {
    ReadFieldWithin(s, pos, w, 6, 10);
    SliceWithin(s, pos, w, 10, |w|);
  }

  /** `read` raises when the first six bytes are not the magic word. */
  lemma HeaderBadMagic<C>(codec: JsonCodec<C>, s: seq<byte>, pos: nat)
    requires pos <= |s| && Text.Slice(s, pos, pos + MAGIC_SIZE) != MAGIC
    ensures ParseHeader(codec, s, pos).0.Err?
    ensures ParseHeader(codec, s, pos).1 == pos + |Text.Slice(s, pos, pos + MAGIC_SIZE)|
  {
  }

  // ---------------------------------------------------------------------
  // Reading a file

  /**
   * A binary file opened for reading: the header read when it was opened,
   * and the file itself, which the iteration reads readouts from. Every
   * readout is read as an AstroPix4 readout, whatever hit class the file
   * was created with.
   */
  class AstroPixBinaryFile<C> {
    var header: Option<FileHeader<C>>
    var input: InputStream?

    constructor()
      ensures header.None? && input == null
    {
      header := None;
      input := null;
    }

    /**
     * `open`, up to the point where the file is handed to the caller: a path
     * without the `.apx` extension raises; otherwise the file, whose bytes
     * are `contents`, is opened and its header read.
     */
    method Open(path: string, contents: seq<byte>, codec: JsonCodec<C>) returns (r: Result<FileHeader<C>, string>)
      modifies this
      ensures !Text.EndsWith(path, EXTENSION) ==> r == Err(NOT_APX) && header == old(header) && input == old(input)
      ensures Text.EndsWith(path, EXTENSION) ==>
        && input != null && fresh(input) && input.Valid() && input.bytes == contents
        && (r, input.pos) == ParseHeader(codec, contents, 0)
        && header == (if r.Ok? then Some(r.value) else old(header))
    {
      if !Text.EndsWith(path, EXTENSION) {
        return Err(NOT_APX);
      }
      input := new InputStream(contents);
      r := ReadHeader(codec, input);
      if r.Ok? {
        header := Some(r.value);
      }
    }

    /** Leaving the `with` block of `open`: the file is let go of. */
    method Close()
      modifies this
      ensures input == null && header == old(header)
    {
      input := null;
    }

    /** `__next__`: the next readout, the end of the iteration (StopIteration), or the exception `from_file` raises. */
    method Next() returns (r: ReadResult)
      requires input != null && input.Valid()
      modifies input
      ensures input.Valid() && input.bytes == old(input.bytes)
      ensures (r, input.pos) == ParseReadout(old(input.bytes), old(input.pos))
    {
      r := FromFile(input);
    }
  }

  /**
   * Iterating over a file from `pos` on: the readouts, in the order they
   * are stored, up to the end of the file, or the exception raised on the
   * first record that cannot be read.
   */
  function ReadoutsFrom(s: seq<byte>, pos: nat): Result<seq<Readout>, string>
    requires pos <= |s|
    decreases |s| - pos, 2
  {
    if pos == |s| then Ok([]) else ReadoutsTurn(s, pos)
  }

  /** One turn of the iteration, from a position inside the file: the next readout is read, then the iteration goes on. */
  function ReadoutsTurn(s: seq<byte>, pos: nat): Result<seq<Readout>, string>
    requires pos < |s|
    decreases |s| - pos, 1
  {
    ReadoutsAfter(s, pos, ParseReadout(s, pos))
  }

  /** The readouts from `pos` on, once the one at `pos` has been read as `next`, up to `next.1`. */
  function ReadoutsAfter(s: seq<byte>, pos: nat, next: (ReadResult, nat)): Result<seq<Readout>, string>
    requires pos <= next.1 <= |s| && (next.0.Got? ==> pos < next.1)
    decreases |s| - pos, 0
  {
    match next.0
    case EndOfFile => Ok([])
    case Failure(message) => Err(message)
    case Got(r) =>
      var rest := ReadoutsFrom(s, next.1);
      if rest.Err? then rest else Ok([r] + rest.value)
  }

  /** The records of a sequence of readouts, one after the other. */
  function RecordsBytes(rs: seq<Readout>): seq<byte>
  {
    if rs == [] then [] else RecordBytes(rs[0]).bytes + RecordsBytes(rs[1..])
  }

  predicate AllStorable(rs: seq<Readout>)
  {
    forall i :: 0 <= i < |rs| ==> Storable(rs[i])
  }

  /**
   * `ws` holds the record of each readout of `rs`. Only a record that is
   * asked for is looked at, so that a proof about many records need not
   * see how each one is laid out.
   */
  predicate Encoded(rs: seq<Readout>, ws: seq<seq<byte>>)
  {
    |ws| == |rs| && forall i {:trigger RecordBytes(rs[i])} :: 0 <= i < |rs| ==> ws[i] == RecordBytes(rs[i]).bytes
  }

  /** Where the `i`-th of the byte strings `ws` starts, when they are laid one after the other from `pos`. */
  function Offset(pos: nat, ws: seq<seq<byte>>, i: nat): nat
    requires i <= |ws|
    decreases i
  {
    if i == 0 then pos else Offset(pos + |ws[0]|, ws[1..], i - 1)
  }

  lemma {:induction false} OffsetNext(pos: nat, ws: seq<seq<byte>>, i: nat)
    requires i < |ws|
    ensures Offset(pos, ws, i + 1) == Offset(pos, ws, i) + |ws[i]|
    decreases i
  {
    if i > 0 {
      OffsetNext(pos + |ws[0]|, ws[1..], i - 1);
    }
  }

  lemma OffsetGrows(pos: nat, ws: seq<seq<byte>>, i: nat)
    requires i < |ws|
    ensures Offset(pos, ws, i) <= Offset(pos, ws, i + 1)
  {
    OffsetNext(pos, ws, i);
  }

  /** `s` holds, from `pos` to its end, the byte strings of `ws`, one after the other. */
  predicate Laid(s: seq<byte>, pos: nat, ws: seq<seq<byte>>)
  {
    && Offset(pos, ws, |ws|) == |s|
    && forall i {:trigger ws[i]} :: 0 <= i < |ws| ==>
         var at := Offset(pos, ws, i); at + |ws[i]| <= |s| && s[at..at + |ws[i]|] == ws[i]
  }

  /** Reading `s` from the start of each record of `ws` gives the readout of `rs` it holds, and leaves the file where the next record starts. */
  predicate Parsed(s: seq<byte>, pos: nat, rs: seq<Readout>, ws: seq<seq<byte>>)
    requires |ws| == |rs|
  {
    forall i {:trigger ParseReadout(s, Offset(pos, ws, i))} :: 0 <= i < |rs| ==>
      Offset(pos, ws, i) <= |s| && ParseReadout(s, Offset(pos, ws, i)) == (Got(rs[i]), Offset(pos, ws, i + 1))
  }

  /**
   * A file that holds, from `pos` to its end, the records of storable
   * readouts: iterating over it gives back exactly those readouts, in
   * order, and stops at the end of the file.
   */
  lemma RecordsRoundTrip(rs: seq<Readout>, ws: seq<seq<byte>>, s: seq<byte>, pos: nat)
    requires AllStorable(rs) && Encoded(rs, ws) && Laid(s, pos, ws)
    ensures ReadoutsFrom(s, pos) == Ok(rs)
  {
    RecordsParse(rs, ws, s, pos);
    ParsedReadouts(rs, ws, s, pos, 0);
    assert rs[0..] == rs;
    assert ReadsAs(s, pos, rs);
  }

  /** Each record reads back as its readout. */
  lemma RecordsParse(rs: seq<Readout>, ws: seq<seq<byte>>, s: seq<byte>, pos: nat)
    requires AllStorable(rs) && Encoded(rs, ws) && Laid(s, pos, ws)
    ensures Parsed(s, pos, rs, ws)
  {
    forall i | 0 <= i < |rs|
      ensures Offset(pos, ws, i) <= |s| && ParseReadout(s, Offset(pos, ws, i)) == (Got(rs[i]), Offset(pos, ws, i + 1))
    {
      RecordSits(rs, ws, s, pos, i);
      RecordAt(rs[i], ws[i], s, Offset(pos, ws, i));
    }
  }

  /** The `i`-th record sits in `s` where the `i`-th byte string is laid, and ends where the next one starts. */
  lemma RecordSits(rs: seq<Readout>, ws: seq<seq<byte>>, s: seq<byte>, pos: nat, i: nat)
    requires i < |rs| && Encoded(rs, ws) && Laid(s, pos, ws)
    ensures var at, w := Offset(pos, ws, i), ws[i];
      && w == RecordBytes(rs[i]).bytes && at + |w| == Offset(pos, ws, i + 1)
      && at + |w| <= |s| && s[at..at + |w|] == w
  {
    OffsetNext(pos, ws, i);
    assert ws[i] == RecordBytes(rs[i]).bytes;
  }

  /** The record of a storable readout, wherever it sits in a file, reads back as that readout. */
  lemma RecordAt(r: Readout, w: seq<byte>, s: seq<byte>, at: nat)
    requires Storable(r) && w == RecordBytes(r).bytes && at + |w| <= |s| && s[at..at + |w|] == w
    ensures ParseReadout(s, at) == (Got(r), at + |w|)
  {
    ReadoutRoundTrip(r, s, at, w);
  }

  /** Iterating from the start of the `i`-th record gives the readouts from the `i`-th on. */
  lemma {:induction false} ParsedReadouts(rs: seq<Readout>, ws: seq<seq<byte>>, s: seq<byte>, pos: nat, i: nat)
    requires |ws| == |rs| && i <= |rs| && Offset(pos, ws, |ws|) == |s| && Parsed(s, pos, rs, ws)
    ensures Offset(pos, ws, i) <= |s| && ReadsAs(s, Offset(pos, ws, i), rs[i..])
    decreases |rs| - i
  {
    if i < |rs| {
      ParsedReadouts(rs, ws, s, pos, i + 1);
      ParsedStep(rs, ws, s, pos, i, rs[i + 1..]);
      assert rs[i..] == [rs[i]] + rs[i + 1..];
    } else {
      assert rs[i..] == [];
    }
  }

  /** Iterating over `s` from `x` reads the readouts `rs` and nothing else. */
  predicate ReadsAs(s: seq<byte>, x: nat, rs: seq<Readout>)
    requires x <= |s|
  {
    ReadoutsFrom(s, x) == Ok(rs)
  }

  /** Iterating from the start of the `i`-th record reads its readout, then goes on from the next record. */
  lemma ParsedStep(rs: seq<Readout>, ws: seq<seq<byte>>, s: seq<byte>, pos: nat, i: nat, rest: seq<Readout>)
    requires |ws| == |rs| && i < |rs| && Offset(pos, ws, i + 1) <= |s| && Parsed(s, pos, rs, ws)
    ensures Offset(pos, ws, i) < Offset(pos, ws, i + 1)
    ensures ReadsAs(s, Offset(pos, ws, i + 1), rest) ==> ReadsAs(s, Offset(pos, ws, i), [rs[i]] + rest)
  {
    OffsetGrows(pos, ws, i);
    var at := Offset(pos, ws, i);
    assert ParseReadout(s, at) == (Got(rs[i]), Offset(pos, ws, i + 1));
    assert ReadoutsFrom(s, at) == ReadoutsTurn(s, at) == ReadoutsAfter(s, at, ParseReadout(s, at));
  }

  lemma AllStorableTail(rs: seq<Readout>)
    requires AllStorable(rs) && rs != []
    ensures Storable(rs[0]) && AllStorable(rs[1..])
  {
    forall i | 0 <= i < |rs[1..]|
      ensures Storable(rs[1..][i])
    {
      assert rs[1..][i] == rs[i + 1];
    }
  }

  /** The records of some readouts, written after any bytes `p`: each readout has its record, and they sit one after the other. */
  lemma {:induction false} RecordsAfter(p: seq<byte>, rs: seq<Readout>) returns (ws: seq<seq<byte>>)
    ensures Encoded(rs, ws) && Laid(p + RecordsBytes(rs), |p|, ws)
    decreases |rs|
  {
    if rs == [] {
      assert p + [] == p;
      ws := [];
    } else {
      var w := RecordBytes(rs[0]).bytes;
      var later := RecordsBytes(rs[1..]);
      Middle(p, w, later);
      var others := RecordsAfter(p + w, rs[1..]);
      ws := [w] + others;
      EncodedCons(rs, w, others);
      LaidCons(p + w + later, |p|, w, others);
    }
  }

  /** A readout's record in front of the records of the readouts after it. */
  lemma EncodedCons(rs: seq<Readout>, w: seq<byte>, others: seq<seq<byte>>)
    requires rs != [] && w == RecordBytes(rs[0]).bytes && Encoded(rs[1..], others)
    ensures Encoded(rs, [w] + others)
  {
    var ws := [w] + others;
    forall i | 0 <= i < |rs|
      ensures ws[i] == RecordBytes(rs[i]).bytes
    {
      if i > 0 {
        assert rs[1..][i - 1] == rs[i] && RecordBytes(rs[1..][i - 1]).bytes == others[i - 1];
      }
    }
  }

  /** A byte string laid in front of others that reach the end of `s`. */
  lemma LaidCons(s: seq<byte>, at: nat, w: seq<byte>, others: seq<seq<byte>>)
    requires at + |w| <= |s| && s[at..at + |w|] == w && Laid(s, at + |w|, others)
    ensures Laid(s, at, [w] + others)
  {
    var ws := [w] + others;
    assert ws[1..] == others;
    forall i | 0 <= i < |ws|
      ensures var o := Offset(at, ws, i); o + |ws[i]| <= |s| && s[o..o + |ws[i]|] == ws[i]
    {
      if i > 0 {
        assert others[i - 1] == ws[i];
      }
    }
  }

  /** In `p + (w + q)`, `w` sits right after `p`, and the whole is `(p + w) + q`. */
  lemma Middle(p: seq<byte>, w: seq<byte>, q: seq<byte>)
    ensures (p + (w + q))[|p|..|p| + |w|] == w
    ensures p + (w + q) == (p + w) + q
  {
  }

  /**
   * Writing a header and the records of some readouts, then opening the
   * file and iterating over it: the header read is the one written, and
   * the readouts are the ones written, in order.
   */
  lemma FileRoundTrip<C>(h: FileHeader<C>, codec: JsonCodec<C>, rs: seq<Readout>)
    requires RoundTrips(codec, h.content) && |codec.dumps(h.content).value| < Pow256(HEADER_LENGTH_SIZE)
    requires AllStorable(rs)
    ensures var hw := HeaderBytes(h, codec).bytes; var s := hw + RecordsBytes(rs);
      && ParseHeader(codec, s, 0) == (Ok(h), |hw|)
      && ReadoutsFrom(s, |hw|) == Ok(rs)
  {
    var hw := HeaderBytes(h, codec).bytes;
    var s := hw + RecordsBytes(rs);
    assert s[0..|hw|] == hw;
    HeaderRoundTrip(h, codec, s, 0, hw);
    var ws := RecordsAfter(hw, rs);
    RecordsRoundTrip(rs, ws, s, |hw|);
  }

  // ---------------------------------------------------------------------
  // Converting a file to text

  /** `decode` as the conversion calls it, with the bit order of the frames reversed. */
  function Decoding(r: Readout): Result<seq<AstroPix4Hit>, string>
  {
    DecodeSpec(r, true)
  }

  /** The converter's lines for some hits, in order. */
  function Lines<H>(hits: seq<H>, converter: H -> string): (r: seq<string>)
    ensures |r| == |hits|
  {
    seq(|hits|, i requires 0 <= i < |hits| => converter(hits[i]))
  }

  /** What the conversion loop leaves: the text written, and the number of hits or the exception raised. */
  datatype Conversion = Conversion(text: string, count: Result<nat, string>)

  /** What the conversion loop leaves when the file ends: nothing written, no hit counted. */
  const NOTHING_CONVERTED := Conversion([], Ok(0))

  /**
   * The conversion loop from `pos` on: for each readout read, every hit
   * `decode` gives is converted to a line, written and counted; reading or
   * decoding a readout may raise, and what was already written stays
   * written. The loop stops at the end of the file, where `__next__`
   * raises StopIteration.
   */
  function ConvertFrom<H>(s: seq<byte>, pos: nat, decode: Readout -> Result<seq<H>, string>, converter: H -> string): Conversion
    requires pos <= |s|
    decreases |s| - pos, 2
  {
    if pos == |s| then NOTHING_CONVERTED else ConvertTurn(s, pos, decode, converter)
  }

  /** One turn of the conversion loop, from a position inside the file: the next readout is read, then handled. */
  function ConvertTurn<H>(s: seq<byte>, pos: nat, decode: Readout -> Result<seq<H>, string>, converter: H -> string): Conversion
    requires pos < |s|
    decreases |s| - pos, 1
  {
    ConvertNext(s, pos, ParseReadout(s, pos), decode, converter)
  }

  /**
   * The rest of a turn, once the readout at `pos` has been read as `next`,
   * up to `next.1`: its hits are converted, then the loop goes on from
   * `next.1`.
   */
  function ConvertNext<H>(s: seq<byte>, pos: nat, next: (ReadResult, nat), decode: Readout -> Result<seq<H>, string>,
                          converter: H -> string): Conversion
    requires pos <= next.1 <= |s| && (next.0.Got? ==> pos < next.1)
    decreases |s| - pos, 0
  {
    match next.0
    case EndOfFile => NOTHING_CONVERTED
    case Failure(message) => Conversion([], Err(message))
    case Got(r) =>
      var hits := decode(r);
      if hits.Err? then Conversion([], Err(hits.error))
      else After(Text.Concat(Lines(hits.value, converter)), |hits.value|, ConvertFrom(s, next.1, decode, converter))
  }

  /** `n` hits written as `text` before a conversion goes on: the text comes first, and the hits are counted. */
  function After(text: string, n: nat, rest: Conversion): Conversion
  {
    Conversion(text + rest.text, Shift(n, rest.count))
  }

  /** A count of hits, or an exception, after `n` more hits were counted. */
  function Shift(n: nat, count: Result<nat, string>): Result<nat, string>
  {
    if count.Err? then count else Ok(n + count.value)
  }

  /** The hits of some readouts, one readout after the other, or the exception `decode` raises on the first that fails. */
  function HitsOfReadouts<H>(rs: seq<Readout>, decode: Readout -> Result<seq<H>, string>): Result<seq<H>, string>
  {
    if rs == [] then Ok([])
    else
      var first := decode(rs[0]);
      if first.Err? then Err(first.error)
      else
        var rest := HitsOfReadouts(rs[1..], decode);
        if rest.Err? then rest else Ok(first.value + rest.value)
  }

  /**
   * The conversion succeeds exactly when every readout of the file can be
   * read and decoded; it then writes one line per hit of every readout, in
   * order, and counts the hits.
   */
  lemma {:induction false} ConvertCounts<H>(s: seq<byte>, pos: nat, decode: Readout -> Result<seq<H>, string>, converter: H -> string)
    requires pos <= |s|
    ensures var c := ConvertFrom(s, pos, decode, converter); var rs := ReadoutsFrom(s, pos);
      && (c.count.Ok? <==> rs.Ok? && HitsOfReadouts(rs.value, decode).Ok?)
      && (c.count.Ok? ==> var hits := HitsOfReadouts(rs.value, decode).value;
            c.count.value == |hits| && c.text == Text.Concat(Lines(hits, converter)))
    decreases |s| - pos
  {
    var (next, p) := ParseReadout(s, pos);
    if pos < |s| {
      assert ConvertFrom(s, pos, decode, converter) == ConvertTurn(s, pos, decode, converter)
        == ConvertNext(s, pos, (next, p), decode, converter);
      assert ReadoutsFrom(s, pos) == ReadoutsTurn(s, pos) == ReadoutsAfter(s, pos, (next, p));
    }
    if next.Got? {
      ConvertCounts(s, p, decode, converter);
      ConvertStep(next.readout, ReadoutsFrom(s, p), ConvertFrom(s, p, decode, converter), decode, converter);
    }
  }

  /** One readout more in front of a file whose conversion is known. */
  lemma ConvertStep<H>(r: Readout, rest: Result<seq<Readout>, string>, later: Conversion, decode: Readout -> Result<seq<H>, string>, converter: H -> string)
    requires later.count.Ok? <==> rest.Ok? && HitsOfReadouts(rest.value, decode).Ok?
    requires later.count.Ok? ==> var hits := HitsOfReadouts(rest.value, decode).value;
      later.count.value == |hits| && later.text == Text.Concat(Lines(hits, converter))
    ensures var hits := decode(r);
      var c := if hits.Err? then Conversion([], Err(hits.error))
        else After(Text.Concat(Lines(hits.value, converter)), |hits.value|, later);
      var rs := if rest.Err? then rest else Ok([r] + rest.value);
      && (c.count.Ok? <==> rs.Ok? && HitsOfReadouts(rs.value, decode).Ok?)
      && (c.count.Ok? ==> var all := HitsOfReadouts(rs.value, decode).value;
            c.count.value == |all| && c.text == Text.Concat(Lines(all, converter)))
  {
    var hits := decode(r);
    if rest.Ok? {
      var rs := [r] + rest.value;
      assert rs[0] == r && rs[1..] == rest.value;
      if hits.Ok? && later.count.Ok? {
        var others := HitsOfReadouts(rest.value, decode).value;
        LinesAppend(hits.value, others, converter);
        Text.ConcatAppend(Lines(hits.value, converter), Lines(others, converter));
      }
    }
  }

  lemma LinesAppend<H>(a: seq<H>, b: seq<H>, converter: H -> string)
    ensures Lines(a + b, converter) == Lines(a, converter) + Lines(b, converter)
  {
    var l, r := Lines(a + b, converter), Lines(a, converter) + Lines(b, converter);
    forall i | 0 <= i < |l|
      ensures l[i] == r[i]
    {
      if i < |a| {
        assert (a + b)[i] == a[i];
      } else {
        assert (a + b)[i] == b[i - |a|];
      }
    }
  }

  /** The output path: the one given, or the input path with `.apx` replaced by the default extension. */
  function OutputPath(path: string, outputPath: Option<string>, defaultExtension: Option<string>): Option<string>
  {
    if outputPath.None? && defaultExtension.Some? then Some(Text.Replace(path, EXTENSION, defaultExtension.value))
    else outputPath
  }

  /**
   * `_convert_apxdf` on an input file whose bytes are `contents`: the text
   * appended to the output file, and the output path with the number of
   * hits written, or the exception raised. The input file is opened (and
   * its header read) before the output file; the optional header line is
   * written once, before the hits.
   */
  function ConvertApxdf<C>(path: string, contents: seq<byte>, codec: JsonCodec<C>, converter: AstroPix4Hit -> string,
                           header: Option<string>, outputPath: Option<string>, defaultExtension: Option<string>):
    (r: (string, Result<(string, nat), string>))
  {
    var target := OutputPath(path, outputPath, defaultExtension);
    if !Text.EndsWith(path, EXTENSION) then ([], Err(NOT_APX))
    else
      var (fileHeader, p) := ParseHeader(codec, contents, 0);
      if fileHeader.Err? then ([], Err(fileHeader.error))
      else if target.None? then ([], Err("no output file path"))
      else
        var c := ConvertFrom(contents, p, Decoding, converter);
        ((if header.Some? then header.value else []) + c.text,
         if c.count.Err? then Err(c.count.error) else Ok((target.value, c.count.value)))
  }

  /**
   * `_convert_apxdf`, writing to an output file already open: the path it
   * returns, with the number of hits it logs.
   */
  method Convert<C>(path: string, contents: seq<byte>, codec: JsonCodec<C>, converter: AstroPix4Hit -> string,
                    header: Option<string>, outputPath: Option<string>, defaultExtension: Option<string>,
                    out: TextOutput)
    returns (r: Result<(string, nat), string>)
    modifies out
    ensures var spec := ConvertApxdf(path, contents, codec, converter, header, outputPath, defaultExtension);
      out.text == old(out.text) + spec.0 && r == spec.1
  {
    var file := new AstroPixBinaryFile<C>();
    var opening := file.Open(path, contents, codec);
    if opening.Err? {
      return Err(opening.error);
    }
    var target := OutputPath(path, outputPath, defaultExtension);
    if target.None? {
      return Err("no output file path");
    }
    ghost var prefix: string := [];
    if header.Some? {
      out.Write(header.value);
      prefix := header.value;
    } else {
      assert out.text == old(out.text) + prefix;
    }
    ghost var start := file.input.pos;
    ghost var c := ConvertFrom(contents, start, Decoding, converter);
    var count := ConvertHits(file, Decoding, converter, out);
    Text.AppendAssoc(old(out.text), prefix, c.text);
    file.Close();
    r := if count.Err? then Err(count.error) else Ok((target.value, count.value));
  }

  /**
   * The loop of `_convert_apxdf` over the readouts of an open file: the
   * lines of their hits are written, and the hits counted, until the file
   * ends or reading or decoding a readout raises.
   */
  method ConvertHits<C, H>(file: AstroPixBinaryFile<C>, decode: Readout -> Result<seq<H>, string>, converter: H -> string, out: TextOutput)
    returns (r: Result<nat, string>)
    requires file.input != null && file.input.Valid()
    modifies file.input, out
    ensures file.input == old(file.input) && file.input.Valid() && file.input.bytes == old(file.input.bytes)
    ensures var c := ConvertFrom(old(file.input.bytes), old(file.input.pos), decode, converter);
      out.text == old(out.text) + c.text && r == c.count
  {
    var input := file.input;
    ghost var contents, start := input.bytes, input.pos;
    ghost var text: string := [];
    ghost var whole := ConvertFrom(contents, start, decode, converter);
    var numHits: nat := 0;
    while true
      invariant file.input == input && input.Valid() && input.bytes == contents
      invariant out.text == old(out.text) + text
      invariant whole.text == text + ConvertFrom(contents, input.pos, decode, converter).text
      invariant whole.count == Shift(numHits, ConvertFrom(contents, input.pos, decode, converter).count)
      decreases |contents| - input.pos
    {
      ghost var rest := ConvertFrom(contents, input.pos, decode, converter).text;
      var more, count, written := ConvertReadout(file, decode, converter, out);
      if !more {
        assert text + rest == text;
        return Shift(numHits, count);
      }
      Text.AppendAssoc(old(out.text), text, written);
      Text.AppendAssoc(text, written, ConvertFrom(contents, input.pos, decode, converter).text);
      text := text + written;
      numHits := numHits + count.value;
    }
  }

  /**
   * One turn of the loop of `_convert_apxdf`: the next readout is read and
   * decoded, and the lines of its hits written. When the loop goes on,
   * `written` is the text written and `count` the number of hits; when it
   * stops, the file has ended or an exception was raised, nothing was
   * written, and `count` is what the conversion from where it started
   * ends with.
   */
  method ConvertReadout<C, H>(file: AstroPixBinaryFile<C>, decode: Readout -> Result<seq<H>, string>, converter: H -> string, out: TextOutput)
    returns (more: bool, count: Result<nat, string>, ghost written: string)
    requires file.input != null && file.input.Valid()
    modifies file.input, out
    ensures file.input == old(file.input) && file.input.Valid() && file.input.bytes == old(file.input.bytes)
    ensures var c := ConvertFrom(old(file.input.bytes), old(file.input.pos), decode, converter);
      if more then
        && old(file.input.pos) < file.input.pos
        && out.text == old(out.text) + written && count.Ok?
        && var rest := ConvertFrom(file.input.bytes, file.input.pos, decode, converter);
           c.text == written + rest.text && c.count == Shift(count.value, rest.count)
      else out.text == old(out.text) && c == Conversion([], count)
  {
    ghost var pos := file.input.pos;
    var next := file.Next();
    ConvertFromNext(file.input.bytes, pos, decode, converter);
    if next.EndOfFile? {
      return false, Ok(0), [];
    }
    if next.Failure? {
      return false, Err(next.message), [];
    }
    var hits := decode(next.readout);
    if hits.Err? {
      return false, Err(hits.error), [];
    }
    var n := WriteLines(hits.value, converter, out);
    return true, Ok(n), Text.Concat(Lines(hits.value, converter));
  }

  /** One step of the conversion loop, by what reading the next readout gives. */
  lemma ConvertFromNext<H>(s: seq<byte>, pos: nat, decode: Readout -> Result<seq<H>, string>, converter: H -> string)
    requires pos <= |s|
    ensures var (next, p) := ParseReadout(s, pos);
      && (next.EndOfFile? ==> ConvertFrom(s, pos, decode, converter) == Conversion([], Ok(0)))
      && (next.Failure? ==> ConvertFrom(s, pos, decode, converter) == Conversion([], Err(next.message)))
      && (next.Got? && decode(next.readout).Err? ==>
            ConvertFrom(s, pos, decode, converter) == Conversion([], Err(decode(next.readout).error)))
      && (next.Got? && decode(next.readout).Ok? ==> var hits := decode(next.readout).value;
            p <= |s| && ConvertFrom(s, pos, decode, converter) ==
              After(Text.Concat(Lines(hits, converter)), |hits|, ConvertFrom(s, p, decode, converter)))
  {
    if pos < |s| {
      assert ConvertFrom(s, pos, decode, converter) == ConvertTurn(s, pos, decode, converter)
        == ConvertNext(s, pos, ParseReadout(s, pos), decode, converter);
    }
  }

  /** The inner loop of `_convert_apxdf`: one line per hit, written in order, and counted. */
  method WriteLines<H>(hits: seq<H>, converter: H -> string, out: TextOutput) returns (count: nat)
    modifies out
    ensures out.text == old(out.text) + Text.Concat(Lines(hits, converter)) && count == |hits|
  {
    count := 0;
    for i := 0 to |hits|
      invariant out.text == old(out.text) + Text.Concat(Lines(hits[..i], converter)) && count == i
    {
      var line := converter(hits[i]);
      out.Write(line);
      ConcatSnoc(Lines(hits[..i], converter), line);
      assert Lines(hits[..i + 1], converter) == Lines(hits[..i], converter) + [line];
      count := count + 1;
    }
    assert hits[..|hits|] == hits;
  }

  lemma ConcatSnoc(lines: seq<string>, line: string)
    ensures Text.Concat(lines + [line]) == Text.Concat(lines) + line
  {
    Text.ConcatAppend(lines, [line]);
    assert Text.Concat([line]) == line + Text.Concat([]);
  }

  /**
   * Converting a file written from a header and some readouts writes the
   * optional header line, then one line per hit of every readout, in order;
   * it fails exactly when decoding one of the readouts raises.
   */
  lemma ConvertWrittenFile<C>(path: string, h: FileHeader<C>, codec: JsonCodec<C>, rs: seq<Readout>,
                              converter: AstroPix4Hit -> string, header: Option<string>,
                              outputPath: Option<string>, defaultExtension: Option<string>)
    requires Text.EndsWith(path, EXTENSION) && OutputPath(path, outputPath, defaultExtension).Some?
    requires RoundTrips(codec, h.content) && |codec.dumps(h.content).value| < Pow256(HEADER_LENGTH_SIZE)
    requires AllStorable(rs)
    ensures var s := HeaderBytes(h, codec).bytes + RecordsBytes(rs);
      var spec := ConvertApxdf(path, s, codec, converter, header, outputPath, defaultExtension);
      var hits := HitsOfReadouts(rs, Decoding);
      && (spec.1.Ok? <==> hits.Ok?)
      && (hits.Ok? ==>
            && spec.0 == (if header.Some? then header.value else []) + Text.Concat(Lines(hits.value, converter))
            && spec.1.value == (OutputPath(path, outputPath, defaultExtension).value, |hits.value|))
  {
    var hw := HeaderBytes(h, codec).bytes;
    var s := hw + RecordsBytes(rs);
    FileRoundTrip(h, codec, rs);
    ConvertAfterHeader(path, s, codec, converter, header, outputPath, defaultExtension);
    ConvertCounts(s, |hw|, Decoding, converter);
  }

  /** Once the header is read, the conversion is the loop over the rest of the file. */
  lemma ConvertAfterHeader<C>(path: string, s: seq<byte>, codec: JsonCodec<C>, converter: AstroPix4Hit -> string,
                              header: Option<string>, outputPath: Option<string>, defaultExtension: Option<string>)
    requires Text.EndsWith(path, EXTENSION) && OutputPath(path, outputPath, defaultExtension).Some?
    requires ParseHeader(codec, s, 0).0.Ok?
    ensures var c := ConvertFrom(s, ParseHeader(codec, s, 0).1, Decoding, converter);
      ConvertApxdf(path, s, codec, converter, header, outputPath, defaultExtension) ==
        ((if header.Some? then header.value else []) + c.text,
         if c.count.Err? then Err(c.count.error) else Ok((OutputPath(path, outputPath, defaultExtension).value, c.count.value)))
  {
  }
}
