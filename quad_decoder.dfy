/**
 * Quad_Chip_Decoder.py: hits of a quad-chip AstroPix3 setup, logged as hex
 * text. Each hit is 22 hex characters: the `0a01` header (an A-STEP header
 * byte and the layer), the 5-byte AstroPix3 frame and a 4-byte FPGA
 * timestamp. A log line is cleaned of quotes and `ffff` padding, every
 * `0a01` is located, headers that a later one overwrites are dropped, an
 * incomplete hit at the end is carried to the next line, and every other
 * hit is decoded.
 */
module QuadDecoder {
  import opened Wrappers
  import opened Bytes
  import Text

  // ---------------------------------------------------------------------
  // Hexadecimal text

  function HexDigit(c: char): (r: Option<nat>)
    ensures r.Some? ==> r.value < 16
  {
    if '0' <= c <= '9' then Some(c as int - '0' as int)
    else if 'a' <= c <= 'f' then Some(c as int - 'a' as int + 10)
    else if 'A' <= c <= 'F' then Some(c as int - 'A' as int + 10)
    else None
  }

  /** The lower-case hex digit of a value below 16. */
  function DigitChar(d: nat): char
    requires d < 16
  {
    if d < 10 then ('0' as int + d) as char else ('a' as int + d - 10) as char
  }

  lemma DigitRoundTrip(d: nat)
    requires d < 16
    ensures HexDigit(DigitChar(d)) == Some(d)
  {
  }

  function Pow16(n: nat): (r: nat)
    ensures r >= 1
  {
    if n == 0 then 1 else 16 * Pow16(n - 1)
  }

  lemma {:induction false} Pow16Monotone(m: nat, n: nat)
    requires m <= n
    ensures Pow16(m) <= Pow16(n)
    decreases n
  {
    if m < n {
      Pow16Monotone(m, n - 1);
    }
  }

  predicate AllHexDigits(s: string)
  {
    forall k :: 0 <= k < |s| ==> HexDigit(s[k]).Some?
  }

  /** The value of a string of hex digits, most significant first (Horner's rule); any other character is an error. */
  function HexDigits(s: string): (r: Result<nat, string>)
    ensures r.Ok? <==> AllHexDigits(s)
    ensures r.Ok? ==> r.value < Pow16(|s|)
  {
    if s == [] then Ok(0)
    else
      var high :- HexDigits(s[..|s| - 1]);
      var d := HexDigit(s[|s| - 1]);
      if d.None? then Err("ValueError: invalid literal for int() with base 16")
      else
        var value: nat := high * 16 + d.value;
        Ok(value)
  }

  /** The ASCII white space modelled as stripped from both ends of the argument of `int()`: space, tab, line feed, vertical tab, form feed and carriage return. */
  predicate IsSpace(c: char)
  {
    c == ' ' || '\t' <= c <= '\r'
  }

  function StripLeft(s: string): (r: string)
    ensures |r| <= |s|
  {
    if s != [] && IsSpace(s[0]) then StripLeft(s[1..]) else s
  }

  function StripRight(s: string): (r: string)
    ensures |r| <= |s|
  {
    if s != [] && IsSpace(s[|s| - 1]) then StripRight(s[..|s| - 1]) else s
  }

  /** The digits `int()` reads after the sign and the `0x` prefix: underscores only singly and between digits. */
  predicate WellUnderscored(digits: string)
  {
    && digits != [] && digits[0] != '_' && digits[|digits| - 1] != '_'
    && forall k: nat :: k < |digits| ==> !Text.OccursAt(digits, "__", k)
  }

  /** The digits with their underscores left out. */
  function WithoutUnderscores(s: string): (r: string)
    ensures |r| <= |s|
    ensures (forall k :: 0 <= k < |s| ==> s[k] != '_') ==> r == s
  {
    if s == [] then []
    else (if s[0] == '_' then [] else [s[0]]) + WithoutUnderscores(s[1..])
  }

  /** `s` without the white space `int()` strips from both of its ends. */
  function Stripped(s: string): (r: string)
    ensures |r| <= |s|
  {
    StripRight(StripLeft(s))
  }

  /** The digits `int()` reads from stripped text: after a sign and a `0x`/`0X` prefix, which may be followed by one underscore. */
  function DigitsAfterPrefix(t: string): (r: string)
    ensures |r| <= |t|
  {
    var unsigned := if t != [] && (t[0] == '+' || t[0] == '-') then t[1..] else t;
    if |unsigned| >= 2 && unsigned[0] == '0' && (unsigned[1] == 'x' || unsigned[1] == 'X') then
      (if |unsigned| >= 3 && unsigned[2] == '_' then unsigned[3..] else unsigned[2..])
    else unsigned
  }

  /**
   * `int(s, 16)`: surrounding white space, a sign, a `0x` prefix and single
   * underscores between digits are accepted; the digits are read as hex.
   * On a non-empty string of hex digits alone it is their value; the
   * empty string and anything else are errors.
   */
  function HexValue(s: string): (r: Result<int, string>)
    ensures s == [] ==> r.Err?
    ensures s != [] && AllHexDigits(s) ==> r.Ok? && r.value == HexDigits(s).value
    ensures r.Ok? ==> -(Pow16(|s|) as int) < r.value < Pow16(|s|)
  {
    HexDigitsOnly(s);
    var t := Stripped(s);
    var digits := DigitsAfterPrefix(t);
    if !WellUnderscored(digits) then Err("ValueError: invalid literal for int() with base 16")
    else
      var magnitude :- HexDigits(WithoutUnderscores(digits));
      Pow16Monotone(|WithoutUnderscores(digits)|, |s|);
      var value: int := if t[0] == '-' then -(magnitude as int) else magnitude;
      Ok(value)
  }

  /** A string of hex digits alone is its own digit part, read as a positive number. */
  lemma HexDigitsOnly(s: string)
    ensures s != [] && AllHexDigits(s) ==>
      && Stripped(s) == s && DigitsAfterPrefix(s) == s && s[0] != '-'
      && WellUnderscored(s) && WithoutUnderscores(s) == s
  {
    if s != [] && AllHexDigits(s) {
      assert HexDigit(s[0]).Some? && HexDigit(s[|s| - 1]).Some?;
      assert StripLeft(s) == s;
      assert StripRight(s) == s;
      assert |s| >= 2 ==> HexDigit(s[1]).Some?;
      forall k | 0 <= k < |s|
        ensures s[k] != '_'
      {
        assert HexDigit(s[k]).Some?;
      }
      forall k: nat | k + 2 <= |s|
        ensures !Text.OccursAt(s, "__", k)
      {
        assert s[k..k + 2][0] == s[k];
      }
    }
  }

  /** White space before a character that is not white space is stripped. */
  lemma {:induction false} StripLeftSpaces(pre: string, s: string)
    requires forall k :: 0 <= k < |pre| ==> IsSpace(pre[k])
    requires s != [] && !IsSpace(s[0])
    ensures StripLeft(pre + s) == s
  {
    if pre != [] {
      assert (pre + s)[1..] == pre[1..] + s;
      StripLeftSpaces(pre[1..], s);
    } else {
      assert pre + s == s;
    }
  }

  /** White space after a character that is not white space is stripped. */
  lemma {:induction false} StripRightSpaces(s: string, post: string)
    requires forall k :: 0 <= k < |post| ==> IsSpace(post[k])
    requires s != [] && !IsSpace(s[|s| - 1])
    ensures StripRight(s + post) == s
    decreases |post|
  {
    if post != [] {
      var n := |post| - 1;
      assert (s + post)[..|s + post| - 1] == s + post[..n];
      StripRightSpaces(s, post[..n]);
    } else {
      assert s + post == s;
    }
  }

  /** White space around text that neither starts nor ends with white space is stripped. */
  lemma StrippedSpaces(pre: string, s: string, post: string)
    requires forall k :: 0 <= k < |pre| ==> IsSpace(pre[k])
    requires forall k :: 0 <= k < |post| ==> IsSpace(post[k])
    requires s != [] && !IsSpace(s[0]) && !IsSpace(s[|s| - 1])
    ensures Stripped(pre + s + post) == s
  {
    StripRightSpaces(s, post);
    assert pre + s + post == pre + (s + post);
    StripLeftSpaces(pre, s + post);
  }

  /** After a sign and a `0x` prefix come the digits. */
  lemma PrefixedDigits(sign: char, prefix: string, s: string)
    requires sign == '+' || sign == '-'
    requires prefix == "0x" || prefix == "0X" || prefix == "0x_"
    requires s != [] && s[0] != '_'
    ensures DigitsAfterPrefix([sign] + prefix + s) == s
  {
    var unsigned := prefix + s;
    assert ([sign] + prefix + s)[1..] == unsigned;
    assert unsigned[|prefix|..] == s;
  }

  /** `int` reads a text surrounded by white space as it reads the text alone. */
  lemma HexValueStripped(pre: string, t: string, post: string)
    requires forall k :: 0 <= k < |pre| ==> IsSpace(pre[k])
    requires forall k :: 0 <= k < |post| ==> IsSpace(post[k])
    requires t != [] && !IsSpace(t[0]) && !IsSpace(t[|t| - 1])
    ensures HexValue(pre + t + post) == HexValue(t)
  {
    StrippedSpaces(pre, t, post);
    StrippedSpaces([], t, []);
    assert [] + t + [] == t;
  }

  /** A sign and a `0x` prefix before hex digits give their value, negated after a minus sign. */
  lemma HexValueSigned(sign: char, prefix: string, s: string)
    requires sign == '+' || sign == '-'
    requires prefix == "0x" || prefix == "0X" || prefix == "0x_"
    requires s != [] && AllHexDigits(s)
    ensures HexValue([sign] + prefix + s) == Ok(if sign == '-' then -(HexDigits(s).value as int) else HexDigits(s).value)
  {
    var signed := [sign] + prefix + s;
    SignedStripped(sign, prefix, s);
    HexDigitsOnly(s);
    PrefixedDigits(sign, prefix, s);
    HexValueOfDigitPart(signed, s);
  }

  /** A signed, prefixed run of hex digits has no white space to strip. */
  lemma SignedStripped(sign: char, prefix: string, s: string)
    requires sign == '+' || sign == '-'
    requires s != [] && AllHexDigits(s)
    ensures Stripped([sign] + prefix + s) == [sign] + prefix + s
  {
    var signed := [sign] + prefix + s;
    assert HexDigit(s[|s| - 1]).Some?;
    assert signed[|signed| - 1] == s[|s| - 1];
    StrippedSpaces([], signed, []);
    assert [] + signed + [] == signed;
  }

  /** A literal with nothing to strip whose digit part is plain hex digits reads as their value, signed. */
  lemma HexValueOfDigitPart(t: string, digits: string)
    requires t != [] && Stripped(t) == t && DigitsAfterPrefix(t) == digits
    requires WellUnderscored(digits) && WithoutUnderscores(digits) == digits && AllHexDigits(digits)
    ensures HexValue(t) == Ok(if t[0] == '-' then -(HexDigits(digits).value as int) else HexDigits(digits).value)
  {
  }

  /**
   * `int` is lenient: hex digits surrounded by white space, signed and
   * prefixed with `0x` read as the signed value of the digits.
   */
  lemma HexValueLenient(pre: string, sign: char, prefix: string, s: string, post: string)
    requires forall k :: 0 <= k < |pre| ==> IsSpace(pre[k])
    requires forall k :: 0 <= k < |post| ==> IsSpace(post[k])
    requires sign == '+' || sign == '-'
    requires prefix == "0x" || prefix == "0X" || prefix == "0x_"
    requires s != [] && AllHexDigits(s)
    ensures HexValue(pre + ([sign] + prefix + s) + post) ==
      Ok(if sign == '-' then -(HexDigits(s).value as int) else HexDigits(s).value)
  {
    var signed := [sign] + prefix + s;
    assert HexDigit(s[|s| - 1]).Some?;
    assert signed[|signed| - 1] == s[|s| - 1];
    HexValueStripped(pre, signed, post);
    HexValueSigned(sign, prefix, s);
  }

  /** Single underscores between digits are skipped. */
  lemma HexValueUnderscore()
    ensures HexValue("1_f") == Ok(31)
  {
    assert Stripped("1_f") == "1_f" && DigitsAfterPrefix("1_f") == "1_f";
    assert WithoutUnderscores("1_f") == "1f";
    assert HexDigits("1") == Ok(1);
  }

  /** A doubled, leading or trailing underscore is an error, and so are a bare prefix and a bare sign. */
  lemma HexValueMalformed()
    ensures HexValue("1__f").Err? && HexValue("_1f").Err? && HexValue("1f_").Err?
    ensures HexValue("0x").Err? && HexValue("-").Err?
  {
    assert Stripped("1__f") == "1__f" && DigitsAfterPrefix("1__f") == "1__f";
    assert Text.OccursAt("1__f", "__", 1);
    assert Stripped("_1f") == "_1f" && DigitsAfterPrefix("_1f") == "_1f";
    assert Stripped("1f_") == "1f_" && DigitsAfterPrefix("1f_") == "1f_";
    assert Stripped("0x") == "0x" && DigitsAfterPrefix("0x") == "";
    assert Stripped("-") == "-" && DigitsAfterPrefix("-") == "";
  }

  /** `binascii.unhexlify`: two hex digits per byte; an odd length or another character is an error. */
  function Unhexlify(s: string): (r: Result<seq<byte>, string>)
    ensures r.Ok? ==> 2 * |r.value| == |s|
  {
    if |s| % 2 == 1 then Err("binascii.Error: Odd-length string")
    else if s == [] then Ok([])
    else
      var high, low := HexDigit(s[0]), HexDigit(s[1]);
      if high.None? || low.None? then Err("binascii.Error: Non-hexadecimal digit found")
      else
        var rest :- Unhexlify(s[2..]);
        Ok([(high.value * 16 + low.value) as byte] + rest)
  }

  /** `binascii.hexlify`, the inverse: two lower-case hex digits per byte. */
  function Hexlify(bs: seq<byte>): (r: string)
    ensures |r| == 2 * |bs|
  {
    if bs == [] then [] else [DigitChar(bs[0] / 16), DigitChar(bs[0] % 16)] + Hexlify(bs[1..])
  }

  /** The unsigned value of some bytes, most significant first. */
  function FromBigEndian(bs: seq<byte>): nat
  {
    if bs == [] then 0 else FromBigEndian(bs[..|bs| - 1]) * 256 + bs[|bs| - 1]
  }

  lemma {:induction false} HexlifyAppend(a: seq<byte>, b: seq<byte>)
    ensures Hexlify(a + b) == Hexlify(a) + Hexlify(b)
  {
    if a != [] {
      assert (a + b)[0] == a[0] && (a + b)[1..] == a[1..] + b;
      HexlifyAppend(a[1..], b);
    } else {
      assert a + b == b;
    }
  }

  /** Unhexlifying what was hexlified gives the bytes back. */
  lemma {:induction false} UnhexlifyHexlify(bs: seq<byte>)
    ensures Unhexlify(Hexlify(bs)) == Ok(bs)
  {
    if bs != [] {
      var s := Hexlify(bs);
      DigitRoundTrip(bs[0] / 16);
      DigitRoundTrip(bs[0] % 16);
      assert s[2..] == Hexlify(bs[1..]);
      UnhexlifyHexlify(bs[1..]);
      assert bs == [bs[0]] + bs[1..];
    }
  }

  /** Reading hexlified bytes as one number gives their big-endian value. */
  lemma {:induction false} HexValueHexlify(bs: seq<byte>)
    requires bs != []
    ensures HexValue(Hexlify(bs)) == Ok(FromBigEndian(bs))
  {
    HexDigitsHexlify(bs);
  }

  lemma {:induction false} HexDigitsHexlify(bs: seq<byte>)
    ensures HexDigits(Hexlify(bs)) == Ok(FromBigEndian(bs))
    decreases |bs|
  {
    if bs != [] {
      var init, b := bs[..|bs| - 1], bs[|bs| - 1];
      assert bs == init + [b];
      HexlifyAppend(init, [b]);
      var x := Hexlify(init);
      var hi, lo := DigitChar(b / 16), DigitChar(b % 16);
      assert Hexlify([b]) == [hi, lo];
      var s := Hexlify(bs);
      assert s == x + [hi, lo];
      assert s[..|s| - 1] == x + [hi] && (x + [hi])[..|x|] == x;
      DigitRoundTrip(b / 16);
      DigitRoundTrip(b % 16);
      HexDigitsHexlify(init);
    }
  }

  // ---------------------------------------------------------------------
  // One hit

  /** The hex header every quad-chip hit starts with. */
  const HIT_HEADER: string := "0a01"

  /** Characters in a hit: 11 bytes. */
  const HIT_CHARACTERS := 22

  /** A decoded hit, one row of the output file (the floating `tot_us` column is not modelled). */
  datatype QuadHit = QuadHit(
    decOrd: nat, readout: nat, layer: int, chipId: nat, payload: nat, location: nat, isCol: nat,
    timestamp: nat, totMsb: nat, totLsb: nat, totTotal: nat, fpgaTs: int)

  /**
   * `decode_astep_hit`: characters 0-2 are the A-STEP header (parsed, then
   * unused), 2-4 the layer, 4-14 the 5-byte AstroPix3 frame and the rest
   * the FPGA timestamp. From the frame: the chip id is the top 5 bits of
   * byte 0 and the payload its low 3; byte 1 holds the column flag in bit
   * 7 and the location in its low 6 bits; byte 3 contributes its low
   * nibble as the ToT MSB.
   */
  function DecodeAstepHit(hit: string, readout: nat, decOrd: nat): (r: Result<QuadHit, string>)
    ensures r.Ok? ==> var h := r.value;
      && h.decOrd == decOrd && h.readout == readout && -256 < h.layer < 256
      && h.chipId < 32 && h.payload < 8 && h.isCol < 2 && h.location < 64 && h.timestamp < 256
      && h.totMsb < 16 && h.totLsb < 256 && h.totTotal == h.totMsb * 256 + h.totLsb && h.totTotal < 4096
  {
    var astepHeader :- HexValue(Text.Slice(hit, 0, 2));
    var layer :- HexValue(Text.Slice(hit, 2, 4));
    var frame :- Unhexlify(Text.Slice(hit, 4, 14));
    var fpgaTs :- HexValue(Text.Slice(hit, 14, |hit|));
    if |frame| != 5 then Err("ValueError: not enough values to unpack")
    else Ok(FrameHit(decOrd, readout, layer, frame, fpgaTs))
  }

  /** The fields the shifts and masks of `decode_astep_hit` take out of a 5-byte frame. */
  function FrameHit(decOrd: nat, readout: nat, layer: int, frame: seq<byte>, fpgaTs: int): QuadHit
    requires |frame| == 5
  {
    var header: nat, location: nat, timestamp: nat := frame[0], frame[1], frame[2];
    var totMsb: nat, totLsb: nat := frame[3] % 16, frame[4];
    QuadHit(decOrd, readout, layer, header / 8, header % 8, location % 64, location / 128 % 2,
            timestamp, totMsb, totLsb, totMsb * 256 + totLsb, fpgaTs)
  }

  /**
   * A hit written from its fields reads back as those fields; the upper
   * nibble of the ToT MSB byte and the reserved bit 6 of the location byte
   * are dropped, and the timestamp is the big-endian value of its 4 bytes.
   */
  lemma DecodeEncodedHit(astepHeader: byte, layer: byte, chipId: nat, payload: nat, isCol: nat, reserved: nat,
                         location: nat, timestamp: byte, upper: nat, totMsb: nat, totLsb: byte, frame: seq<byte>,
                         fpga: seq<byte>, readout: nat, decOrd: nat)
    requires chipId < 32 && payload < 8 && isCol < 2 && reserved < 2 && location < 64 && upper < 16 && totMsb < 16
    requires frame == [chipId * 8 + payload, isCol * 128 + reserved * 64 + location, timestamp, upper * 16 + totMsb, totLsb]
    requires |fpga| == 4
    ensures DecodeAstepHit(Hexlify([astepHeader, layer] + frame + fpga), readout, decOrd) ==
      Ok(QuadHit(decOrd, readout, layer, chipId, payload, location, isCol, timestamp, totMsb, totLsb,
                 totMsb * 256 + totLsb, FromBigEndian(fpga)))
  {
    var hit := Hexlify([astepHeader, layer] + frame + fpga);
    EncodedHitParts(astepHeader, layer, frame, fpga);
    DecodeOfParts(hit, readout, decOrd, layer as int, frame, FromBigEndian(fpga));
    FrameFields(frame, chipId, payload, isCol, reserved, location, timestamp, upper, totMsb, totLsb);
    var decoded := FrameHit(decOrd, readout, layer as int, frame, FromBigEndian(fpga));
    assert DecodeAstepHit(hit, readout, decOrd) == Ok(decoded);
    assert decoded == QuadHit(decOrd, readout, layer, chipId, payload, location, isCol, timestamp, totMsb, totLsb,
                              totMsb * 256 + totLsb, FromBigEndian(fpga));
  }

  /** Each part of a hit written from bytes parses back to those bytes. */
  lemma EncodedHitParts(astepHeader: byte, layer: byte, frame: seq<byte>, fpga: seq<byte>)
    requires |frame| == 5 && |fpga| == 4
    ensures var hit := Hexlify([astepHeader, layer] + frame + fpga);
      && HexValue(Text.Slice(hit, 0, 2)).Ok? && HexValue(Text.Slice(hit, 2, 4)) == Ok(layer as int)
      && Unhexlify(Text.Slice(hit, 4, 14)) == Ok(frame)
      && HexValue(Text.Slice(hit, 14, |hit|)) == Ok(FromBigEndian(fpga))
  {
    HitPieces([astepHeader], [layer], frame, fpga);
    assert [astepHeader] + [layer] == [astepHeader, layer];
    HexValueHexlify([astepHeader]);
    HexValueHexlify([layer]);
    assert FromBigEndian([layer]) == layer by {
      assert [layer][..0] == [];
    }
    UnhexlifyHexlify(frame);
    HexValueHexlify(fpga);
  }

  /** A hit whose four parts parse decodes to the fields of its frame. */
  lemma DecodeOfParts(hit: string, readout: nat, decOrd: nat, layer: int, frame: seq<byte>, fpgaTs: int)
    requires HexValue(Text.Slice(hit, 0, 2)).Ok? && HexValue(Text.Slice(hit, 2, 4)) == Ok(layer)
    requires |frame| == 5 && Unhexlify(Text.Slice(hit, 4, 14)) == Ok(frame)
    requires HexValue(Text.Slice(hit, 14, |hit|)) == Ok(fpgaTs)
    ensures DecodeAstepHit(hit, readout, decOrd) == Ok(FrameHit(decOrd, readout, layer, frame, fpgaTs))
  {
  }

  /** Where the hex digits of each part of a hit sit in its text. */
  lemma HitPieces(astepHeader: seq<byte>, layer: seq<byte>, frame: seq<byte>, fpga: seq<byte>)
    requires |astepHeader| == 1 && |layer| == 1 && |frame| == 5
    ensures var hit := Hexlify(astepHeader + layer + frame + fpga);
      && Text.Slice(hit, 0, 2) == Hexlify(astepHeader)
      && Text.Slice(hit, 2, 4) == Hexlify(layer)
      && Text.Slice(hit, 4, 14) == Hexlify(frame)
      && Text.Slice(hit, 14, |hit|) == Hexlify(fpga)
  {
    HexlifyAppend(astepHeader, layer);
    HexlifyAppend(astepHeader + layer, frame);
    HexlifyAppend(astepHeader + layer + frame, fpga);
    var a, b, c, d := Hexlify(astepHeader), Hexlify(layer), Hexlify(frame), Hexlify(fpga);
    var hit := a + b + c + d;
    assert hit[0..2] == a && hit[2..4] == b && hit[4..14] == c && hit[14..] == d;
  }

  /** The shifts and masks of the decoder undo the packing of the frame's bytes. */
  lemma FrameFields(frame: seq<byte>, chipId: nat, payload: nat, isCol: nat, reserved: nat, location: nat,
                    timestamp: byte, upper: nat, totMsb: nat, totLsb: byte)
    requires chipId < 32 && payload < 8 && isCol < 2 && reserved < 2 && location < 64 && upper < 16 && totMsb < 16
    requires frame == [chipId * 8 + payload, isCol * 128 + reserved * 64 + location, timestamp, upper * 16 + totMsb, totLsb]
    ensures frame[0] / 8 == chipId && frame[0] % 8 == payload
    ensures frame[1] % 64 == location && frame[1] / 128 % 2 == isCol
    ensures frame[2] == timestamp && frame[3] % 16 == totMsb && frame[4] == totLsb
  {
    var b0, b1, b3 := chipId * 8 + payload, isCol * 128 + reserved * 64 + location, upper * 16 + totMsb;
    assert frame[0] == b0 && frame[1] == b1 && frame[3] == b3;
    assert b0 / 8 == chipId && b0 % 8 == payload;
    assert b1 % 64 == location && b1 / 128 == isCol;
    assert b3 % 16 == totMsb;
  }

  // ---------------------------------------------------------------------
  // Locating the headers

  /** Every position from `from` on where `sub` occurs, in increasing order. */
  function Occurrences(text: string, sub: string, from: nat): seq<nat>
    decreases |text| + 1 - from
  {
    if from > |text| then []
    else (if Text.OccursAt(text, sub, from) then [from] else []) + Occurrences(text, sub, from + 1)
  }

  /** The occurrences are exactly the positions from `from` on where `sub` occurs, in increasing order. */
  lemma {:induction false} OccurrencesExact(text: string, sub: string, from: nat)
    ensures var r := Occurrences(text, sub, from);
      && (forall k :: 0 <= k < |r| ==> from <= r[k] && Text.OccursAt(text, sub, r[k]))
      && (forall k :: 0 < k < |r| ==> r[k - 1] < r[k])
      && (forall p: nat :: from <= p && Text.OccursAt(text, sub, p) ==> p in r)
    decreases |text| + 1 - from
  {
    if from <= |text| {
      OccurrencesExact(text, sub, from + 1);
    }
  }

  /** With no occurrence from `a` on, there is nothing left to find. */
  lemma {:induction false} NoneFrom(text: string, sub: string, a: nat)
    requires forall p: nat :: a <= p ==> !Text.OccursAt(text, sub, p)
    ensures Occurrences(text, sub, a) == []
    decreases |text| + 1 - a
  {
    if a <= |text| {
      NoneFrom(text, sub, a + 1);
    }
  }

  /** The occurrences from `a` on start with the first one, `b`. */
  lemma {:induction false} SkipTo(text: string, sub: string, a: nat, b: nat)
    requires a <= b && Text.OccursAt(text, sub, b)
    requires forall p: nat :: a <= p < b ==> !Text.OccursAt(text, sub, p)
    ensures Occurrences(text, sub, a) == [b] + Occurrences(text, sub, b + 1)
    decreases b - a
  {
    if a < b {
      SkipTo(text, sub, a + 1, b);
    }
  }

  /**
   * `find_all_indexes`: `find` again from one past each occurrence found,
   * until there is none; overlapping occurrences are all found.
   */
  method FindAllIndexes(text: string, sub: string) returns (indexes: seq<nat>)
    ensures indexes == Occurrences(text, sub, 0)
  {
    indexes := [];
    var start := 0;
    assert [] + Occurrences(text, sub, 0) == Occurrences(text, sub, 0);
    while true
      invariant start <= |text| + 1
      invariant FoundUpTo(text, sub, indexes, start)
      decreases |text| + 1 - start
    {
      var index := Text.Find(text, sub, start);
      FoundNext(text, sub, indexes, start);
      if index == -1 {
        return;
      }
      indexes := indexes + [index];
      start := index + 1;
    }
  }

  /** `found` are the occurrences before `start`. */
  predicate FoundUpTo(text: string, sub: string, found: seq<nat>, start: nat)
  {
    found + Occurrences(text, sub, start) == Occurrences(text, sub, 0)
  }

  /** Finding from `start` moves `start` past the next occurrence, or finds that there is none. */
  lemma FoundNext(text: string, sub: string, found: seq<nat>, start: nat)
    requires FoundUpTo(text, sub, found, start)
    ensures var i := Text.Find(text, sub, start);
      if i == -1 then found == Occurrences(text, sub, 0)
      else start <= i <= |text| && FoundUpTo(text, sub, found + [i], i + 1)
  {
    var i := Text.Find(text, sub, start);
    FirstOccurrence(text, sub, start);
    if i == -1 {
      assert found + [] == found;
    } else {
      var rest := Occurrences(text, sub, i + 1);
      assert found + [i] + rest == found + ([i] + rest);
    }
  }

  /** What `find` returns from `start` is the first of the occurrences from there on. */
  lemma FirstOccurrence(text: string, sub: string, start: nat)
    ensures var i := Text.Find(text, sub, start);
      Occurrences(text, sub, start) == if i == -1 then [] else [i] + Occurrences(text, sub, i + 1)
  {
    var i := Text.Find(text, sub, start);
    if i == -1 {
      NoneFrom(text, sub, start);
    } else {
      SkipTo(text, sub, start, i);
    }
  }

  /** `diff_consecutive`: the distance from each header to the next. */
  function Gaps(xs: seq<nat>): seq<int>
  {
    seq(if xs == [] then 0 else |xs| - 1, i requires 0 <= i < |xs| - 1 => (xs[i + 1] as int) - xs[i])
  }

  /** The mask `gaps >= 22`, with `True` appended for the last header. */
  function KeepMask(xs: seq<nat>): (r: seq<bool>)
    ensures |r| == if xs == [] then 1 else |xs|
  {
    var gaps := Gaps(xs);
    seq(|gaps|, i requires 0 <= i < |gaps| => gaps[i] >= HIT_CHARACTERS) + [true]
  }

  /** NumPy boolean indexing: the elements whose mask entry is set; a mask of another length raises IndexError. */
  function BooleanIndex<T>(xs: seq<T>, mask: seq<bool>): Result<seq<T>, string>
  {
    if |xs| != |mask| then Err("IndexError: boolean index did not match indexed array") else Ok(Selected(xs, mask))
  }

  function Selected<T>(xs: seq<T>, mask: seq<bool>): seq<T>
    requires |xs| == |mask|
  {
    if xs == [] then [] else (if mask[0] then [xs[0]] else []) + Selected(xs[1..], mask[1..])
  }

  /**
   * The headers that no later header overwrites: a header is kept when the
   * next one starts at least a whole hit later, and the last one is
   * always kept.
   */
  function Unoverwritten(hs: seq<nat>): seq<nat>
  {
    if |hs| <= 1 then hs
    else (if hs[1] - hs[0] >= HIT_CHARACTERS then [hs[0]] else []) + Unoverwritten(hs[1..])
  }

  /**
   * The header offsets the script keeps: the gap mask applied with NumPy
   * boolean indexing. With no header at all the mask is one entry too long
   * and NumPy raises; otherwise the kept offsets are the unoverwritten ones.
   */
  function KeptHeaders(hs: seq<nat>): (r: Result<seq<nat>, string>)
    ensures r.Ok? ==> r.value != []
  {
    if hs == [] then BooleanIndex(hs, KeepMask(hs))
    else
      KeptAreUnoverwritten(hs);
      UnoverwrittenKeepsLast(hs);
      BooleanIndex(hs, KeepMask(hs))
  }

  /** Only an empty list of headers raises; otherwise the unoverwritten ones are kept, the last among them. */
  lemma KeptHeadersExact(hs: seq<nat>)
    ensures KeptHeaders(hs).Ok? <==> hs != []
    ensures hs != [] ==> KeptHeaders(hs) == Ok(Unoverwritten(hs))
    ensures hs != [] ==> var u := KeptHeaders(hs).value; u[|u| - 1] == hs[|hs| - 1]
  {
    if hs != [] {
      KeptAreUnoverwritten(hs);
      UnoverwrittenKeepsLast(hs);
    }
  }

  /** The last header is never overwritten. */
  lemma {:induction false} UnoverwrittenKeepsLast(hs: seq<nat>)
    requires hs != []
    ensures var u := Unoverwritten(hs); u != [] && u[|u| - 1] == hs[|hs| - 1]
    decreases |hs|
  {
    if |hs| > 1 {
      UnoverwrittenKeepsLast(hs[1..]);
    }
  }

  lemma {:induction false} KeptAreUnoverwritten(hs: seq<nat>)
    requires hs != []
    ensures Selected(hs, KeepMask(hs)) == Unoverwritten(hs)
    decreases |hs|
  {
    var mask := KeepMask(hs);
    if |hs| > 1 {
      assert mask[0] == (hs[1] - hs[0] >= HIT_CHARACTERS);
      assert mask[1..] == KeepMask(hs[1..]);
      KeptAreUnoverwritten(hs[1..]);
    }
  }

  /**
   * Among increasing offsets, the unoverwritten ones keep the last offset,
   * come from the offsets, and lie at least a whole hit apart.
   */
  lemma {:induction false} UnoverwrittenSpaced(hs: seq<nat>)
    requires hs != [] && forall k :: 0 < k < |hs| ==> hs[k - 1] < hs[k]
    ensures var u := Unoverwritten(hs);
      && u != [] && u[|u| - 1] == hs[|hs| - 1]
      && (forall k :: 0 <= k < |u| ==> u[k] in hs && hs[0] <= u[k])
      && (forall k :: 0 < k < |u| ==> u[k - 1] + HIT_CHARACTERS <= u[k])
    decreases |hs|
  {
    if |hs| > 1 {
      var rest := hs[1..];
      UnoverwrittenSpaced(rest);
      var u, v := Unoverwritten(hs), Unoverwritten(rest);
      forall k | 0 <= k < |u|
        ensures u[k] in hs && hs[0] <= u[k]
      {
        if u[k] != hs[0] {
          assert u[k] in v && u[k] in rest;
        }
      }
    }
  }

  // ---------------------------------------------------------------------
  // The end of a line

  /** The headers to decode, the text they index and the fragment carried to the next line. */
  datatype QuadCut = QuadCut(headers: seq<nat>, text: string, carry: Option<string>)

  function CarryText(carry: Option<string>): string
  {
    if carry.Some? then carry.value else ""
  }

  /**
   * The end-of-line check as written: the last header is carried, with
   * the text from it on, when it lies less than a hit before the NUMBER
   * OF PIECES the `ffff` split left, not before the end of the text.
   */
  function CutAsWritten(text: string, pieceCount: nat, headers: seq<nat>): (r: QuadCut)
    requires headers != []
    ensures r.carry.Some? <==> headers[|headers| - 1] + HIT_CHARACTERS > pieceCount
  {
    var last := headers[|headers| - 1];
    if last + HIT_CHARACTERS > pieceCount then CarryLast(text, headers) else QuadCut(headers, text, None)
  }

  /** The last header is carried: the text before it is decoded, the text from it on goes to the next line. */
  function CarryLast(text: string, headers: seq<nat>): QuadCut
    requires headers != []
  {
    var last := headers[|headers| - 1];
    QuadCut(headers[..|headers| - 1], Text.Slice(text, 0, last), Some(Text.Slice(text, last, |text|)))
  }

  /** As written, a complete hit alone on a line is carried to the next line instead of being decoded. */
  lemma CompleteHitCarriedAsWritten()
    ensures var text := HIT_HEADER + "060000000000000000";
      && |text| == HIT_CHARACTERS
      && CutAsWritten(text, 1, [0]) == QuadCut([], "", Some(text))
  {
    var text := HIT_HEADER + "060000000000000000";
    assert Text.Slice(text, 0, |text|) == text;
  }

  /**
   * The end-of-line check as intended: the last header is carried, with
   * the text from it on, exactly when its hit runs past the end of the
   * text.
   */
  function CutAtEnd(text: string, headers: seq<nat>): (r: QuadCut)
    requires headers != []
    ensures r.carry.Some? <==> headers[|headers| - 1] + HIT_CHARACTERS > |text|
  {
    var last := headers[|headers| - 1];
    if last + HIT_CHARACTERS > |text| then CarryLast(text, headers) else QuadCut(headers, text, None)
  }

  /** Which end-of-line check a run of the decoder applies: line 127 as written, or the check it evidently intends. */
  datatype EndCheck = AsWritten | AtEnd

  /** The cut a line gets under `check`; `pieceCount` is the number of pieces the `ffff` split left. */
  function Cut(check: EndCheck, text: string, pieceCount: nat, headers: seq<nat>): QuadCut
    requires headers != []
  {
    match check
    case AsWritten => CutAsWritten(text, pieceCount, headers)
    case AtEnd => CutAtEnd(text, headers)
  }

  /**
   * Whenever the intended check carries the last hit, the check as written
   * carries it too and cuts the line in the same place (there are never
   * more pieces than characters); it differs only by also carrying a last
   * hit that is complete.
   */
  lemma AsWrittenCarriesMore(text: string, pieceCount: nat, headers: seq<nat>)
    requires headers != [] && pieceCount <= |text|
    ensures CutAtEnd(text, headers).carry.Some? ==> CutAsWritten(text, pieceCount, headers) == CutAtEnd(text, headers)
    ensures CutAtEnd(text, headers).carry.None? ==>
      (CutAsWritten(text, pieceCount, headers).carry.Some? <==> headers[|headers| - 1] + HIT_CHARACTERS > pieceCount)
  {
  }

  /** The complete hit of the example above is decoded on its own line. */
  lemma CompleteHitDecodedAtEnd()
    ensures var text := HIT_HEADER + "060000000000000000";
      CutAtEnd(text, [0]) == QuadCut([0], text, None)
  {
  }

  /**
   * Cutting a line at its headers, when they are occurrences of `0a01`
   * lying a hit apart: every header left to decode has a whole hit
   * starting with `0a01` in the text, the carry is an incomplete hit
   * starting with `0a01`, and nothing of the text is lost.
   */
  lemma CutHitsComplete(text: string, headers: seq<nat>)
    requires headers != []
    requires forall k :: 0 <= k < |headers| ==> Text.OccursAt(text, HIT_HEADER, headers[k])
    requires forall k :: 0 < k < |headers| ==> headers[k - 1] + HIT_CHARACTERS <= headers[k]
    ensures var r := CutAtEnd(text, headers);
      && r.text + CarryText(r.carry) == text
      && (forall k :: 0 <= k < |r.headers| ==> WholeHitAt(r.text, r.headers[k]))
      && (r.carry.Some? ==> |r.carry.value| < HIT_CHARACTERS && Text.OccursAt(r.carry.value, HIT_HEADER, 0))
  {
    var last := headers[|headers| - 1];
    if last + HIT_CHARACTERS > |text| {
      CarriedLastSound(text, headers);
    } else {
      var r := CutAtEnd(text, headers);
      assert r.text + [] == text;
      AllWhole(text, headers);
    }
  }

  /**
   * The check as written on the same headers, when there are no more
   * pieces than characters: every header left to decode still has a whole
   * hit starting with `0a01` and nothing is lost, but the carry, which
   * starts with `0a01`, may hold a complete hit and more.
   */
  lemma CutAsWrittenHits(text: string, pieceCount: nat, headers: seq<nat>)
    requires headers != [] && pieceCount <= |text|
    requires forall k :: 0 <= k < |headers| ==> Text.OccursAt(text, HIT_HEADER, headers[k])
    requires forall k :: 0 < k < |headers| ==> headers[k - 1] + HIT_CHARACTERS <= headers[k]
    ensures var r := CutAsWritten(text, pieceCount, headers);
      && r.text + CarryText(r.carry) == text
      && (forall k :: 0 <= k < |r.headers| ==> WholeHitAt(r.text, r.headers[k]))
      && (r.carry.Some? ==> Text.OccursAt(r.carry.value, HIT_HEADER, 0))
  {
    var last := headers[|headers| - 1];
    if last + HIT_CHARACTERS > pieceCount {
      CarriedLastSound(text, headers);
    } else {
      var r := CutAsWritten(text, pieceCount, headers);
      assert r.text + [] == text;
      AllWhole(text, headers);
    }
  }

  /** When the last of headers a hit apart has a whole hit in the text, they all do. */
  lemma AllWhole(text: string, headers: seq<nat>)
    requires headers != [] && headers[|headers| - 1] + HIT_CHARACTERS <= |text|
    requires forall k :: 0 <= k < |headers| ==> Text.OccursAt(text, HIT_HEADER, headers[k])
    requires forall k :: 0 < k < |headers| ==> headers[k - 1] + HIT_CHARACTERS <= headers[k]
    ensures forall k :: 0 <= k < |headers| ==> WholeHitAt(text, headers[k])
  {
    HeadersBeforeLast(headers);
    forall k | 0 <= k < |headers|
      ensures WholeHitAt(text, headers[k])
    {
      assert Text.OccursAt(text, HIT_HEADER, headers[k]);
    }
  }

  /**
   * Carrying the last of headers a hit apart: the headers before it keep
   * whole hits in the text before it, the carry starts with `0a01`, and
   * the two parts make up the text.
   */
  lemma CarriedLastSound(text: string, headers: seq<nat>)
    requires headers != []
    requires forall k :: 0 <= k < |headers| ==> Text.OccursAt(text, HIT_HEADER, headers[k])
    requires forall k :: 0 < k < |headers| ==> headers[k - 1] + HIT_CHARACTERS <= headers[k]
    ensures var r := CarryLast(text, headers);
      && r.text + CarryText(r.carry) == text
      && (forall k :: 0 <= k < |r.headers| ==> WholeHitAt(r.text, r.headers[k]))
      && (r.carry.Some? ==> Text.OccursAt(r.carry.value, HIT_HEADER, 0))
  {
    HeadersBeforeLast(headers);
    var last := headers[|headers| - 1];
    var before, after := text[..last], text[last..];
    assert Text.OccursAt(text, HIT_HEADER, last);
    assert before + after == text;
    assert after[..4] == text[last..last + 4];
    forall k | 0 <= k < |headers| - 1
      ensures WholeHitAt(before, headers[k])
    {
      assert Text.OccursAt(text, HIT_HEADER, headers[k]);
      assert before[headers[k]..headers[k] + 4] == text[headers[k]..headers[k] + 4];
    }
  }

  /** A whole hit starting with `0a01` lies in `text` at `h`. */
  predicate WholeHitAt(text: string, h: nat)
  {
    h + HIT_CHARACTERS <= |text| && text[h..h + 4] == HIT_HEADER
  }

  /** Headers a hit apart each lie a hit before the last one. */
  lemma {:induction false} HeadersBeforeLast(headers: seq<nat>)
    requires headers != []
    requires forall k :: 0 < k < |headers| ==> headers[k - 1] + HIT_CHARACTERS <= headers[k]
    ensures forall k :: 0 <= k < |headers| - 1 ==> headers[k] + HIT_CHARACTERS <= headers[|headers| - 1]
    decreases |headers|
  {
    if |headers| > 1 {
      var init := headers[..|headers| - 1];
      HeadersBeforeLast(init);
    }
  }

  // ---------------------------------------------------------------------
  // Decoding a line and a log

  /** The values when every result is `Ok`; otherwise the first error. */
  function AllOk<T>(rs: seq<Result<T, string>>): Result<seq<T>, string>
  {
    if rs == [] then Ok([])
    else
      var before :- AllOk(rs[..|rs| - 1]);
      var last :- rs[|rs| - 1];
      Ok(before + [last])
  }

  /** When every result is `Ok`, the values are theirs, in order. */
  lemma {:induction false} AllOkValues<T>(rs: seq<Result<T, string>>)
    ensures AllOk(rs).Ok? <==> forall k :: 0 <= k < |rs| ==> rs[k].Ok?
    ensures AllOk(rs).Ok? ==> |AllOk(rs).value| == |rs| && forall k :: 0 <= k < |rs| ==> rs[k] == Ok(AllOk(rs).value[k])
    decreases |rs|
  {
    if rs != [] {
      var n := |rs| - 1;
      AllOkValues(rs[..n]);
      assert forall k :: 0 <= k < n ==> rs[..n][k] == rs[k];
    }
  }

  /** Otherwise the error is that of the first result that is not `Ok`. */
  lemma {:induction false} AllOkFirstError<T>(rs: seq<Result<T, string>>) returns (k: nat)
    requires AllOk(rs).Err?
    ensures k < |rs| && rs[k] == Err(AllOk(rs).error) && forall j :: 0 <= j < k ==> rs[j].Ok?
    decreases |rs|
  {
    var n := |rs| - 1;
    if AllOk(rs[..n]).Err? {
      k := AllOkFirstError(rs[..n]);
      assert rs[..n][k] == rs[k];
      assert forall j :: 0 <= j < k ==> rs[..n][j] == rs[j];
    } else {
      AllOkValues(rs[..n]);
      assert forall j :: 0 <= j < n ==> rs[..n][j] == rs[j];
      k := n;
    }
  }

  /** Once a prefix fails, the whole sequence fails with its error. */
  lemma {:induction false} FirstErrorRaises<T>(rs: seq<Result<T, string>>, k: nat)
    requires k <= |rs| && AllOk(rs[..k]).Err?
    ensures AllOk(rs) == AllOk(rs[..k])
    decreases |rs| - k
  {
    if k < |rs| {
      var n := |rs| - 1;
      assert rs[..n][..k] == rs[..k];
      FirstErrorRaises(rs[..n], k);
    } else {
      assert rs[..k] == rs;
    }
  }

  /** The values of the results before the first error: everything a loop writes before a result raises. */
  function OkPrefix<T>(rs: seq<Result<T, string>>): (r: seq<T>)
    ensures |r| <= |rs|
  {
    if rs == [] || rs[0].Err? then [] else [rs[0].value] + OkPrefix(rs[1..])
  }

  /**
   * What a loop writes before it raises: the values of the results up to
   * the first error, which is the result right after them; when none
   * raises, every value.
   */
  lemma {:induction false} OkPrefixExact<T>(rs: seq<Result<T, string>>)
    ensures forall k :: 0 <= k < |OkPrefix(rs)| ==> rs[k] == Ok(OkPrefix(rs)[k])
    ensures |OkPrefix(rs)| < |rs| ==> rs[|OkPrefix(rs)|].Err?
    ensures AllOk(rs).Ok? ==> OkPrefix(rs) == AllOk(rs).value
  {
    if rs != [] && rs[0].Ok? {
      OkPrefixExact(rs[1..]);
    }
    AllOkValues(rs);
  }

  /** The written values are the values of an all-`Ok` prefix followed by an error. */
  lemma OkPrefixAtError<T>(rs: seq<Result<T, string>>, k: nat, values: seq<T>)
    requires k < |rs| && AllOk(rs[..k]) == Ok(values) && rs[k].Err?
    ensures OkPrefix(rs) == values
  {
    AllOkValues(rs[..k]);
    forall j | 0 <= j < k
      ensures rs[j] == Ok(values[j])
    {
      assert rs[..k][j] == rs[j];
    }
    OkPrefixExact(rs);
    var p := OkPrefix(rs);
    assert |p| <= k;
    assert |p| == k;
  }

  /** The result of decoding the 22 characters from each header, numbered by its position among the headers. */
  function HitResults(text: string, headers: seq<nat>, lineNumber: nat): (r: seq<Result<QuadHit, string>>)
    ensures |r| == |headers|
    ensures forall k :: 0 <= k < |r| && r[k].Ok? ==> r[k].value.decOrd == k && r[k].value.readout == lineNumber
  {
    seq(|headers|, k requires 0 <= k < |headers| =>
      DecodeAstepHit(Text.Slice(text, headers[k], headers[k] + HIT_CHARACTERS), lineNumber, k))
  }

  /**
   * The rows of one line: every hit decodes, and each row is its hit's
   * decoding, or the first hit that does not decode raises.
   */
  function DecodedHits(text: string, headers: seq<nat>, lineNumber: nat): (r: Result<seq<QuadHit>, string>)
    ensures r.Ok? ==> |r.value| == |headers|
    ensures r.Ok? ==> forall k :: 0 <= k < |r.value| ==> r.value[k].decOrd == k && r.value[k].readout == lineNumber
  {
    AllOkValues(HitResults(text, headers, lineNumber));
    AllOk(HitResults(text, headers, lineNumber))
  }

  /** The rows the `enumerate` loop writes to the file: those of the hits before the first that raises. */
  function WrittenHits(text: string, headers: seq<nat>, lineNumber: nat): seq<QuadHit>
  {
    OkPrefix(HitResults(text, headers, lineNumber))
  }

  /** The rows written before a hit raises are those of the hits before it, numbered by position. */
  lemma WrittenHitsDecoded(text: string, headers: seq<nat>, lineNumber: nat)
    ensures var w := WrittenHits(text, headers, lineNumber);
      && |w| <= |headers|
      && (forall k :: 0 <= k < |w| ==>
            DecodeAstepHit(Text.Slice(text, headers[k], headers[k] + HIT_CHARACTERS), lineNumber, k) == Ok(w[k]))
  {
    var rs := HitResults(text, headers, lineNumber);
    OkPrefixExact(rs);
    var w := OkPrefix(rs);
    forall k | 0 <= k < |w|
      ensures DecodeAstepHit(Text.Slice(text, headers[k], headers[k] + HIT_CHARACTERS), lineNumber, k) == Ok(w[k])
    {
      assert rs[k] == Ok(w[k]);
    }
  }

  /** When fewer rows are written than there are headers, the hit right after them is the one that raised. */
  lemma WrittenHitsStop(text: string, headers: seq<nat>, lineNumber: nat)
    ensures var n := |WrittenHits(text, headers, lineNumber)|;
      n < |headers| ==> DecodeAstepHit(Text.Slice(text, headers[n], headers[n] + HIT_CHARACTERS), lineNumber, n).Err?
  {
    var rs := HitResults(text, headers, lineNumber);
    OkPrefixExact(rs);
    var n := |OkPrefix(rs)|;
    if n < |headers| {
      assert rs[n].Err?;
    }
  }

  /** When no hit raises, the rows written are all the rows of the line. */
  lemma WrittenHitsAll(text: string, headers: seq<nat>, lineNumber: nat)
    ensures DecodedHits(text, headers, lineNumber).Ok? ==>
      WrittenHits(text, headers, lineNumber) == DecodedHits(text, headers, lineNumber).value
  {
    OkPrefixExact(HitResults(text, headers, lineNumber));
  }

  /**
   * The `enumerate` loop over the kept headers; the first hit that does
   * not decode raises, after the rows of the hits before it are written.
   */
  method DecodeLineHits(text: string, headers: seq<nat>, lineNumber: nat)
    returns (r: Result<seq<QuadHit>, string>, written: seq<QuadHit>)
    ensures r == DecodedHits(text, headers, lineNumber)
    ensures written == WrittenHits(text, headers, lineNumber)
  {
    ghost var results := HitResults(text, headers, lineNumber);
    var hits := [];
    for decOrd := 0 to |headers|
      invariant AllOk(results[..decOrd]) == Ok(hits)
    {
      var hit := DecodeAstepHit(Text.Slice(text, headers[decOrd], headers[decOrd] + HIT_CHARACTERS), lineNumber, decOrd);
      assert results[decOrd] == hit;
      assert results[..decOrd + 1][..decOrd] == results[..decOrd];
      if hit.Err? {
        FirstErrorRaises(results, decOrd + 1);
        OkPrefixAtError(results, decOrd, hits);
        return Err(hit.error), hits;
      }
      hits := hits + [hit.value];
    }
    assert results[..|headers|] == results;
    OkPrefixExact(results);
    return Ok(hits), hits;
  }

  /** A hit whose text starts with `0a01` comes from layer 1. */
  lemma LayerOne(hit: string, readout: nat, decOrd: nat)
    requires Text.OccursAt(hit, HIT_HEADER, 0)
    ensures DecodeAstepHit(hit, readout, decOrd).Ok? ==> DecodeAstepHit(hit, readout, decOrd).value.layer == 1
  {
    assert Text.Slice(hit, 2, 4) == "01";
    LayerDigits();
  }

  /** The layer digits of the `0a01` header read as layer 1. */
  lemma LayerDigits()
    ensures HexValue("01") == Ok(1)
  {
    assert AllHexDigits("01") by {
      assert HexDigit("01"[0]).Some? && HexDigit("01"[1]).Some?;
    }
    assert HexDigits("0") == Ok(0);
  }

  /** Decoding whole hits at the headers gives layer-1 rows only. */
  lemma DecodedLayerOne(text: string, headers: seq<nat>, lineNumber: nat)
    requires forall k :: 0 <= k < |headers| ==> WholeHitAt(text, headers[k])
    ensures DecodedHits(text, headers, lineNumber).Ok? ==>
      forall k :: 0 <= k < |headers| ==> DecodedHits(text, headers, lineNumber).value[k].layer == 1
  {
    var r := DecodedHits(text, headers, lineNumber);
    if r.Ok? {
      forall k | 0 <= k < |headers|
        ensures r.value[k].layer == 1
      {
        var h := headers[k];
        var hit := Text.Slice(text, h, h + HIT_CHARACTERS);
        assert hit[..4] == text[h..h + 4];
        LayerOne(hit, lineNumber, k);
        AllOkValues(HitResults(text, headers, lineNumber));
      }
    }
  }

  /**
   * The pieces `no_ff_list` of a `b'…'` line: the fragment carried from
   * the previous line, then the line without its `b'` and its last
   * character, with the quotes cut out, split at `ffff`, and the empty
   * pieces dropped.
   */
  function NoFfPieces(carry: Option<string>, line: string): (r: seq<string>)
    ensures forall k :: 0 <= k < |r| ==> |r[k]| > 0
  {
    var full := CarryText(carry) + Text.Trim(line, 2, 1);
    var noQuote := Text.Concat(Text.DropEmpty(Text.Split(full, "'")));
    Text.DropEmpty(Text.Split(noQuote, "ffff"))
  }

  /**
   * The text `no_ff_string` of a `b'…'` line: the carried fragment and the
   * line with the quotes and then the `ffff` padding cut out. It has at
   * least as many characters as there are pieces.
   */
  function LineData(carry: Option<string>, line: string): (r: string)
    ensures r == Text.Replace(Text.Replace(CarryText(carry) + Text.Trim(line, 2, 1), "'", ""), "ffff", "")
    ensures |NoFfPieces(carry, line)| <= |r|
  {
    var full := CarryText(carry) + Text.Trim(line, 2, 1);
    Text.ConcatSplitIsReplace(full, "'");
    var noQuote := Text.Concat(Text.DropEmpty(Text.Split(full, "'")));
    Text.ConcatSplitIsReplace(noQuote, "ffff");
    Text.ConcatLength(NoFfPieces(carry, line));
    Text.Concat(NoFfPieces(carry, line))
  }

  /** What the loop over the log carries from line to line: the carried fragment, the `b'…'` lines seen, and the rows written. */
  datatype QuadState = QuadState(carry: Option<string>, lineCounter: nat, rows: seq<QuadHit>)

  /** Whether the text after the first `INFO:` starts with `b`. */
  predicate IsByteLine(fullLine: string)
  {
    var pieces := Text.Split(fullLine, "INFO:");
    |pieces| >= 2 && pieces[1] != [] && pieces[1][0] == 'b'
  }

  /** The rows a `b'…'` line writes and the fragment it carries to the next line. */
  datatype LineOutput = LineOutput(rows: seq<QuadHit>, carry: Option<string>)

  /**
   * A `b'…'` line: the kept headers are decoded, but for the last one when
   * `check` carries it to the next line; a line without any `0a01` raises
   * IndexError when the last header is looked up.
   */
  function ByteLine(check: EndCheck, carry: Option<string>, line: string, lineNumber: nat): (r: Result<LineOutput, string>)
    ensures r.Ok? ==> forall k :: 0 <= k < |r.value.rows| ==>
      r.value.rows[k].readout == lineNumber && r.value.rows[k].decOrd == k
  {
    var text := LineData(carry, line);
    var kept :- KeptHeaders(Occurrences(text, HIT_HEADER, 0));
    var cut := Cut(check, text, |NoFfPieces(carry, line)|, kept);
    var hits :- DecodedHits(cut.text, cut.headers, lineNumber);
    Ok(LineOutput(hits, cut.carry))
  }

  /**
   * The rows a `b'…'` line writes to the file, whether or not it raises:
   * none when it has no `0a01`, else those of the hits before the first
   * that does not decode.
   */
  function ByteLineWritten(check: EndCheck, carry: Option<string>, line: string, lineNumber: nat): seq<QuadHit>
  {
    var text := LineData(carry, line);
    var kept := KeptHeaders(Occurrences(text, HIT_HEADER, 0));
    if kept.Err? then []
    else
      var cut := Cut(check, text, |NoFfPieces(carry, line)|, kept.value);
      WrittenHits(cut.text, cut.headers, lineNumber)
  }

  /** A line that does not raise has written exactly its rows. */
  lemma ByteLineWrites(check: EndCheck, carry: Option<string>, line: string, lineNumber: nat)
    ensures ByteLine(check, carry, line, lineNumber).Ok? ==>
      ByteLineWritten(check, carry, line, lineNumber) == ByteLine(check, carry, line, lineNumber).value.rows
  {
    var text := LineData(carry, line);
    var kept := KeptHeaders(Occurrences(text, HIT_HEADER, 0));
    if kept.Ok? {
      var cut := Cut(check, text, |NoFfPieces(carry, line)|, kept.value);
      WrittenHitsAll(cut.text, cut.headers, lineNumber);
    }
  }

  /**
   * One line of the log, as the file iterator yields it. A line without
   * `INFO:`, or with nothing after it, raises IndexError; a line whose
   * text after `INFO:` does not start with `b` is skipped.
   */
  function QuadAdvance(check: EndCheck, state: QuadState, fullLine: string): Result<QuadState, string>
  {
    var pieces := Text.Split(fullLine, "INFO:");
    if |pieces| < 2 then Err("IndexError: list index out of range")
    else if pieces[1] == [] then Err("IndexError: string index out of range")
    else if pieces[1][0] != 'b' then Ok(state)
    else Counted(state, ByteLine(check, state.carry, pieces[1], state.lineCounter))
  }

  /** The state after a `b'…'` line: its carry, one line more, and its rows appended; or the error it raised. */
  function Counted(state: QuadState, out: Result<LineOutput, string>): Result<QuadState, string>
  {
    var line :- out;
    Ok(QuadState(line.carry, state.lineCounter + 1, state.rows + line.rows))
  }

  /**
   * A line counts when it is a `b'…'` line; the rows written before stay
   * as they were, and the rows it adds carry its number and their
   * position within it. Any other line changes nothing.
   */
  lemma QuadAdvanceRows(check: EndCheck, state: QuadState, fullLine: string)
    ensures var r := QuadAdvance(check, state, fullLine);
      r.Ok? ==> var next := r.value;
      && next.lineCounter == state.lineCounter + (if IsByteLine(fullLine) then 1 else 0)
      && |state.rows| <= |next.rows| && next.rows[..|state.rows|] == state.rows
      && (forall k :: |state.rows| <= k < |next.rows| ==>
            next.rows[k].readout == state.lineCounter && next.rows[k].decOrd == k - |state.rows|)
      && (!IsByteLine(fullLine) ==> next == state)
  {
    var r := QuadAdvance(check, state, fullLine);
    if r.Ok? && IsByteLine(fullLine) {
      var out := ByteLine(check, state.carry, Text.Split(fullLine, "INFO:")[1], state.lineCounter).value;
      assert (state.rows + out.rows)[..|state.rows|] == state.rows;
    }
  }

  /** The lines of a log one after the other; the first line that raises ends the run. */
  function QuadRun(check: EndCheck, state: QuadState, lines: seq<string>): Result<QuadState, string>
    decreases |lines|
  {
    if lines == [] then Ok(state)
    else
      var next :- QuadAdvance(check, state, lines[0]);
      QuadRun(check, next, lines[1..])
  }

  /** The rows one line of the log writes to the file, whether or not it raises. */
  function LineWritten(check: EndCheck, state: QuadState, fullLine: string): seq<QuadHit>
  {
    if IsByteLine(fullLine) then ByteLineWritten(check, state.carry, Text.Split(fullLine, "INFO:")[1], state.lineCounter)
    else []
  }

  /**
   * Every row the script has written to the CSV file when the run ends:
   * the rows of the lines before the one that raises stay in the file,
   * followed by those that line wrote before raising.
   */
  function QuadWritten(check: EndCheck, state: QuadState, lines: seq<string>): seq<QuadHit>
    decreases |lines|
  {
    if lines == [] then state.rows
    else
      match QuadAdvance(check, state, lines[0])
      case Ok(next) => QuadWritten(check, next, lines[1..])
      case Err(_) => state.rows + LineWritten(check, state, lines[0])
  }

  /** The body of the loop over the log for a `b'…'` line. */
  method DecodeByteLine(check: EndCheck, carry: Option<string>, line: string, lineNumber: nat)
    returns (r: Result<LineOutput, string>, written: seq<QuadHit>)
    ensures r == ByteLine(check, carry, line, lineNumber)
    ensures written == ByteLineWritten(check, carry, line, lineNumber)
  {
    var text := LineData(carry, line);
    var pieces := NoFfPieces(carry, line);
    var found := FindAllIndexes(text, HIT_HEADER);
    var kept := KeptHeaders(found);
    if kept.Err? {
      return Err(kept.error), [];
    }
    var cut := Cut(check, text, |pieces|, kept.value);
    var hits;
    hits, written := DecodeLineHits(cut.text, cut.headers, lineNumber);
    if hits.Err? {
      return Err(hits.error), written;
    }
    return Ok(LineOutput(hits.value, cut.carry)), written;
  }

  /** The body of the loop over the log for one line. */
  method DecodeQuadLine(check: EndCheck, state: QuadState, fullLine: string)
    returns (r: Result<QuadState, string>, written: seq<QuadHit>)
    ensures r == QuadAdvance(check, state, fullLine)
    ensures written == LineWritten(check, state, fullLine)
  {
    var pieces := Text.Split(fullLine, "INFO:");
    if |pieces| < 2 {
      return Err("IndexError: list index out of range"), [];
    }
    var line := pieces[1];
    if line == [] {
      return Err("IndexError: string index out of range"), [];
    }
    if line[0] != 'b' {
      return Ok(state), [];
    }
    var out;
    out, written := DecodeByteLine(check, state.carry, line, state.lineCounter);
    return Counted(state, out), written;
  }

  /**
   * The script's loop over the lines of a log, from no carry, no line and
   * no row; `written` is what the CSV file holds when the loop ends or
   * raises.
   */
  method DecodeQuadLog(check: EndCheck, lines: seq<string>) returns (r: Result<QuadState, string>, written: seq<QuadHit>)
    ensures r == QuadRun(check, QuadState(None, 0, []), lines)
    ensures written == QuadWritten(check, QuadState(None, 0, []), lines)
  {
    var state := QuadState(None, 0, []);
    for i := 0 to |lines|
      invariant QuadRun(check, state, lines[i..]) == QuadRun(check, QuadState(None, 0, []), lines)
      invariant QuadWritten(check, state, lines[i..]) == QuadWritten(check, QuadState(None, 0, []), lines)
    {
      var next, lineRows := DecodeQuadLine(check, state, lines[i]);
      assert lines[i..][1..] == lines[i + 1..];
      if next.Err? {
        return Err(next.error), state.rows + lineRows;
      }
      state := next.value;
    }
    assert lines[|lines|..] == [];
    return Ok(state), state.rows;
  }

  /** A text in which the first character of a separator never appears splits into itself alone. */
  lemma SplitWithout(s: string, sep: string)
    requires |sep| > 0 && sep[0] !in s
    ensures Text.Split(s, sep) == [s]
  {
  }

  /** A text that opens with `0a01` and has no `a` after it holds that one header only. */
  lemma SingleHeader(text: string)
    requires Text.OccursAt(text, HIT_HEADER, 0)
    requires forall i :: 2 <= i < |text| ==> text[i] != 'a'
    ensures Occurrences(text, HIT_HEADER, 0) == [0]
  {
    SkipTo(text, HIT_HEADER, 0, 0);
    forall p: nat | 1 <= p
      ensures !Text.OccursAt(text, HIT_HEADER, p)
    {
      if p + 4 <= |text| {
        assert text[p..p + 4][1] == text[p + 1];
      }
    }
    NoneFrom(text, HIT_HEADER, 1);
  }

  /** A hit whose four parts parse decodes. */
  lemma DecodesFromParts(hit: string, readout: nat, decOrd: nat)
    requires HexValue(Text.Slice(hit, 0, 2)).Ok? && HexValue(Text.Slice(hit, 2, 4)).Ok?
    requires |hit| >= 14 && Unhexlify(Text.Slice(hit, 4, 14)).Ok?
    requires HexValue(Text.Slice(hit, 14, |hit|)).Ok?
    ensures DecodeAstepHit(hit, readout, decOrd).Ok?
  {
  }

  /** A text that is one hit which decodes gives exactly one row. */
  lemma OneDecoded(hit: string, readout: nat)
    requires |hit| == HIT_CHARACTERS && DecodeAstepHit(hit, readout, 0).Ok?
    ensures DecodedHits(hit, [0], readout).Ok? && |DecodedHits(hit, [0], readout).value| == 1
  {
    var rs := HitResults(hit, [0], readout);
    assert Text.Slice(hit, 0, HIT_CHARACTERS) == hit;
    assert rs[0] == DecodeAstepHit(hit, readout, 0);
    AllOkValues(rs);
  }

  /** A `b'…'` line whose body has no quote and no `f`, with nothing carried, has that body as its data. */
  lemma SingleHitText(line: string, hit: string)
    requires Text.Trim(line, 2, 1) == hit && |hit| > 0
    requires '\'' !in hit && 'f' !in hit
    ensures NoFfPieces(None, line) == [hit] && LineData(None, line) == hit
  {
    assert CarryText(None) + hit == hit;
    SplitWithout(hit, "'");
    assert [hit][1..] == [];
    assert Text.DropEmpty([hit]) == [hit];
    assert Text.Concat([hit]) == hit;
    SplitWithout(hit, "ffff");
  }

  /** As written, a line that is one complete hit and nothing else writes no row and carries the hit. */
  lemma SingleHitAsWritten(line: string, hit: string, readout: nat)
    requires NoFfPieces(None, line) == [hit] && LineData(None, line) == hit && |hit| == HIT_CHARACTERS
    requires Occurrences(hit, HIT_HEADER, 0) == [0]
    ensures ByteLine(AsWritten, None, line, readout) == Ok(LineOutput([], Some(hit)))
  {
    KeptHeadersExact([0]);
    assert KeptHeaders([0]) == Ok([0]);
    assert Cut(AsWritten, hit, 1, [0]) == QuadCut([], "", Some(hit)) by {
      assert Text.Slice(hit, 0, |hit|) == hit;
    }
    assert DecodedHits("", [], readout) == Ok([]);
  }

  /** Under the intended check the same line writes its hit as one row. */
  lemma SingleHitAtEnd(line: string, hit: string, readout: nat)
    requires NoFfPieces(None, line) == [hit] && LineData(None, line) == hit && |hit| == HIT_CHARACTERS
    requires Occurrences(hit, HIT_HEADER, 0) == [0]
    requires DecodeAstepHit(hit, readout, 0).Ok?
    ensures ByteLine(AtEnd, None, line, readout).Ok? && |ByteLine(AtEnd, None, line, readout).value.rows| == 1
  {
    KeptHeadersExact([0]);
    assert KeptHeaders([0]) == Ok([0]);
    assert Cut(AtEnd, hit, 1, [0]) == QuadCut([0], hit, None);
    OneDecoded(hit, readout);
  }

  /** A complete hit: header `0a`, layer `01`, frame `0600000000` (chip 0, payload 6), FPGA timestamp 0. */
  const LONE_HIT: string := "0a01060000000000000000"

  lemma LoneFrame()
    ensures Unhexlify("0600000000").Ok?
  {
    assert HexDigit('0') == Some(0) && HexDigit('6') == Some(6);
    assert "0600000000"[2..] == "00000000";
    assert "00000000"[2..] == "000000";
    assert "000000"[2..] == "0000";
    assert "0000"[2..] == "00";
    assert "00"[2..] == [];
  }

  lemma LoneHeaderPart()
    ensures HexValue(Text.Slice(LONE_HIT, 0, 2)).Ok?
  {
    assert Text.Slice(LONE_HIT, 0, 2) == "0a";
    assert AllHexDigits("0a");
  }

  lemma LoneLayerPart()
    ensures HexValue(Text.Slice(LONE_HIT, 2, 4)).Ok?
  {
    assert Text.Slice(LONE_HIT, 2, 4) == "01";
    LayerDigits();
  }

  lemma LoneFramePart()
    ensures Unhexlify(Text.Slice(LONE_HIT, 4, 14)).Ok?
  {
    assert Text.Slice(LONE_HIT, 4, 14) == "0600000000";
    LoneFrame();
  }

  lemma LoneFpgaPart()
    ensures HexValue(Text.Slice(LONE_HIT, 14, |LONE_HIT|)).Ok?
  {
    assert Text.Slice(LONE_HIT, 14, |LONE_HIT|) == "00000000";
    assert AllHexDigits("00000000");
  }

  /** The lone hit decodes. */
  lemma LoneHitDecodes()
    ensures DecodeAstepHit(LONE_HIT, 0, 0).Ok?
  {
    LoneHeaderPart();
    LoneLayerPart();
    LoneFramePart();
    LoneFpgaPart();
    DecodesFromParts(LONE_HIT, 0, 0);
  }

  /** The only `0a01` in the lone hit is its header. */
  lemma LoneHitHeaders()
    ensures Occurrences(LONE_HIT, HIT_HEADER, 0) == [0]
  {
    assert Text.OccursAt(LONE_HIT, HIT_HEADER, 0);
    assert forall i :: 2 <= i < |LONE_HIT| ==> LONE_HIT[i] != 'a';
    SingleHeader(LONE_HIT);
  }

  /**
   * A `b'…'` line holding the lone hit and nothing else, with nothing
   * carried into it: as written the hit is carried to the next line and
   * the line writes no row; under the intended check the line writes it.
   */
  lemma LoneHitLine()
    ensures ByteLine(AsWritten, None, "b'" + LONE_HIT + "'", 0) == Ok(LineOutput([], Some(LONE_HIT)))
    ensures ByteLine(AtEnd, None, "b'" + LONE_HIT + "'", 0).Ok?
    ensures |ByteLine(AtEnd, None, "b'" + LONE_HIT + "'", 0).value.rows| == 1
  {
    var line := "b'" + LONE_HIT + "'";
    assert Text.Trim(line, 2, 1) == LONE_HIT;
    assert '\'' !in LONE_HIT && 'f' !in LONE_HIT;
    SingleHitText(line, LONE_HIT);
    LoneHitHeaders();
    LoneHitDecodes();
    SingleHitAsWritten(line, LONE_HIT, 0);
    SingleHitAtEnd(line, LONE_HIT, 0);
  }

  // ---------------------------------------------------------------------
  // What a run promises

  /** The number of `b'…'` lines among `lines`. */
  function ByteLines(lines: seq<string>): (n: nat)
    ensures n <= |lines|
  {
    if lines == [] then 0 else (if IsByteLine(lines[0]) then 1 else 0) + ByteLines(lines[1..])
  }

  /**
   * What holds between lines: every row comes from layer 1 and from a line
   * already counted, and the carry starts with `0a01`; under the intended
   * check it is moreover an incomplete hit.
   */
  predicate QuadSound(check: EndCheck, state: QuadState)
  {
    && (forall k :: 0 <= k < |state.rows| ==> state.rows[k].layer == 1 && state.rows[k].readout < state.lineCounter)
    && (state.carry.Some? ==>
          && Text.OccursAt(state.carry.value, HIT_HEADER, 0)
          && (check == AtEnd ==> |state.carry.value| < HIT_CHARACTERS))
  }

  /**
   * A `b'…'` line writes layer-1 rows only and carries at most a fragment
   * starting with `0a01`; under the intended check that fragment is an
   * incomplete hit, while as written it may be a complete one.
   */
  lemma ByteLineSound(check: EndCheck, carry: Option<string>, line: string, lineNumber: nat)
    ensures var r := ByteLine(check, carry, line, lineNumber);
      r.Ok? ==>
        && (forall k :: 0 <= k < |r.value.rows| ==> r.value.rows[k].layer == 1)
        && (r.value.carry.Some? ==>
              && Text.OccursAt(r.value.carry.value, HIT_HEADER, 0)
              && (check == AtEnd ==> |r.value.carry.value| < HIT_CHARACTERS))
  {
    var text := LineData(carry, line);
    var kept := KeptHeaders(Occurrences(text, HIT_HEADER, 0));
    if kept.Ok? {
      var pieceCount := |NoFfPieces(carry, line)|;
      CutSound(check, text, pieceCount);
      var cut := Cut(check, text, pieceCount, kept.value);
      DecodedLayerOne(cut.text, cut.headers, lineNumber);
    }
  }

  /**
   * Cutting a text at its kept `0a01` headers leaves whole hits to decode
   * and carries a fragment starting with `0a01`, an incomplete hit under
   * the intended check.
   */
  lemma CutSound(check: EndCheck, text: string, pieceCount: nat)
    requires pieceCount <= |text|
    requires KeptHeaders(Occurrences(text, HIT_HEADER, 0)).Ok?
    ensures var cut := Cut(check, text, pieceCount, KeptHeaders(Occurrences(text, HIT_HEADER, 0)).value);
      && (forall k :: 0 <= k < |cut.headers| ==> WholeHitAt(cut.text, cut.headers[k]))
      && (cut.carry.Some? ==>
            && Text.OccursAt(cut.carry.value, HIT_HEADER, 0)
            && (check == AtEnd ==> |cut.carry.value| < HIT_CHARACTERS))
  {
    var found := Occurrences(text, HIT_HEADER, 0);
    OccurrencesExact(text, HIT_HEADER, 0);
    KeptHeadersExact(found);
    UnoverwrittenSpaced(found);
    match check
    case AtEnd => CutHitsComplete(text, Unoverwritten(found));
    case AsWritten => CutAsWrittenHits(text, pieceCount, Unoverwritten(found));
  }

  /** Each line keeps the run sound. */
  lemma QuadAdvanceSound(check: EndCheck, state: QuadState, fullLine: string)
    requires QuadSound(check, state)
    ensures QuadAdvance(check, state, fullLine).Ok? ==> QuadSound(check, QuadAdvance(check, state, fullLine).value)
  {
    QuadAdvanceRows(check, state, fullLine);
    var pieces := Text.Split(fullLine, "INFO:");
    if IsByteLine(fullLine) {
      ByteLineSound(check, state.carry, pieces[1], state.lineCounter);
    }
  }

  /**
   * A run from any sound state counts the `b'…'` lines, keeps the rows
   * written before, and stays sound: every row comes from layer 1 and
   * from a counted line.
   */
  lemma {:induction false} QuadRunSound(check: EndCheck, state: QuadState, lines: seq<string>)
    requires QuadSound(check, state)
    ensures var r := QuadRun(check, state, lines);
      r.Ok? ==>
        && QuadSound(check, r.value)
        && r.value.lineCounter == state.lineCounter + ByteLines(lines)
        && |state.rows| <= |r.value.rows| && r.value.rows[..|state.rows|] == state.rows
    decreases |lines|
  {
    if lines != [] {
      var next := QuadAdvance(check, state, lines[0]);
      if next.Ok? {
        QuadAdvanceRows(check, state, lines[0]);
        QuadAdvanceSound(check, state, lines[0]);
        QuadRunSound(check, next.value, lines[1..]);
        var r := QuadRun(check, state, lines);
        if r.Ok? {
          assert r.value.rows[..|state.rows|] == r.value.rows[..|next.value.rows|][..|state.rows|];
        }
      }
    }
  }

  /** The rows written before a hit raises come from layer 1, as all rows do. */
  lemma WrittenLayerOne(text: string, headers: seq<nat>, lineNumber: nat)
    requires forall k :: 0 <= k < |headers| ==> WholeHitAt(text, headers[k])
    ensures forall k :: 0 <= k < |WrittenHits(text, headers, lineNumber)| ==> WrittenHits(text, headers, lineNumber)[k].layer == 1
  {
    var w := WrittenHits(text, headers, lineNumber);
    WrittenHitsDecoded(text, headers, lineNumber);
    forall k | 0 <= k < |w|
      ensures w[k].layer == 1
    {
      WholeHitLayerOne(text, headers[k], lineNumber, k);
    }
  }

  /** A whole hit in the text that decodes is a layer-1 hit. */
  lemma WholeHitLayerOne(text: string, h: nat, lineNumber: nat, decOrd: nat)
    requires WholeHitAt(text, h)
    ensures var d := DecodeAstepHit(Text.Slice(text, h, h + HIT_CHARACTERS), lineNumber, decOrd);
      d.Ok? ==> d.value.layer == 1
  {
    var hit := Text.Slice(text, h, h + HIT_CHARACTERS);
    assert hit[..4] == text[h..h + 4];
    LayerOne(hit, lineNumber, decOrd);
  }

  /** Whatever a `b'…'` line writes before raising is from layer 1. */
  lemma ByteLineWrittenLayerOne(check: EndCheck, carry: Option<string>, line: string, lineNumber: nat)
    ensures var w := ByteLineWritten(check, carry, line, lineNumber);
      forall k :: 0 <= k < |w| ==> w[k].layer == 1
  {
    var text := LineData(carry, line);
    var kept := KeptHeaders(Occurrences(text, HIT_HEADER, 0));
    if kept.Ok? {
      var pieceCount := |NoFfPieces(carry, line)|;
      CutSound(check, text, pieceCount);
      var cut := Cut(check, text, pieceCount, kept.value);
      WrittenLayerOne(cut.text, cut.headers, lineNumber);
    }
  }

  /**
   * What the file holds at the end of a run: the rows written before it
   * started, then more; when nothing raises, exactly the run's rows.
   */
  lemma {:induction false} QuadWrittenRun(check: EndCheck, state: QuadState, lines: seq<string>)
    ensures var w := QuadWritten(check, state, lines);
      && |state.rows| <= |w| && w[..|state.rows|] == state.rows
      && (QuadRun(check, state, lines).Ok? ==> w == QuadRun(check, state, lines).value.rows)
    decreases |lines|
  {
    if lines != [] {
      var next := QuadAdvance(check, state, lines[0]);
      if next.Ok? {
        QuadAdvanceRows(check, state, lines[0]);
        QuadWrittenRun(check, next.value, lines[1..]);
        var w := QuadWritten(check, state, lines);
        assert w[..|state.rows|] == w[..|next.value.rows|][..|state.rows|];
      } else {
        var w := QuadWritten(check, state, lines);
        assert w[..|state.rows|] == state.rows;
      }
    }
  }

  /** Every row in the file is from layer 1, including those written before a line raises. */
  lemma {:induction false} QuadWrittenSound(check: EndCheck, state: QuadState, lines: seq<string>)
    requires QuadSound(check, state)
    ensures forall k :: 0 <= k < |QuadWritten(check, state, lines)| ==> QuadWritten(check, state, lines)[k].layer == 1
    decreases |lines|
  {
    if lines != [] {
      var next := QuadAdvance(check, state, lines[0]);
      if next.Ok? {
        QuadAdvanceSound(check, state, lines[0]);
        QuadWrittenSound(check, next.value, lines[1..]);
      } else if IsByteLine(lines[0]) {
        ByteLineWrittenLayerOne(check, state.carry, Text.Split(lines[0], "INFO:")[1], state.lineCounter);
      }
    }
  }

  /**
   * A line that decodes, then a line without `INFO:`: the run raises
   * IndexError, and the file keeps the rows of the first line.
   */
  lemma RowsKeptOnError(check: EndCheck, state: QuadState, good: string, bad: string)
    requires QuadAdvance(check, state, good).Ok?
    requires |Text.Split(bad, "INFO:")| < 2
    ensures QuadRun(check, state, [good, bad]).Err?
    ensures QuadWritten(check, state, [good, bad]) == QuadAdvance(check, state, good).value.rows
  {
    var next := QuadAdvance(check, state, good).value;
    assert [good, bad][1..] == [bad];
    assert [bad][1..] == [];
    assert !IsByteLine(bad);
    assert next.rows + [] == next.rows;
  }

  /**
   * Decoding a whole log: one count per `b'…'` line, layer-1 rows only,
   * numbered by the line they came from. The file holds exactly those rows
   * when nothing raises, and layer-1 rows only even when a line raises.
   */
  lemma QuadLogSound(check: EndCheck, lines: seq<string>)
    ensures var r := QuadRun(check, QuadState(None, 0, []), lines);
      r.Ok? ==> QuadSound(check, r.value) && r.value.lineCounter == ByteLines(lines)
    ensures var r := QuadRun(check, QuadState(None, 0, []), lines);
      r.Ok? ==> QuadWritten(check, QuadState(None, 0, []), lines) == r.value.rows
    ensures var w := QuadWritten(check, QuadState(None, 0, []), lines);
      forall k :: 0 <= k < |w| ==> w[k].layer == 1
  {
    QuadRunSound(check, QuadState(None, 0, []), lines);
    QuadWrittenRun(check, QuadState(None, 0, []), lines);
    QuadWrittenSound(check, QuadState(None, 0, []), lines);
  }
}
