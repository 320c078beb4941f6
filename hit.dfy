/**
 * AstroPix hits (astropix_analysis/fmt.py): a hit is a fixed-size byte
 * string whose fields are consecutive bit ranges, most significant bit
 * first, in the order of its layout. AstroPix3 adds the combined ToT,
 * AstroPix4 the two Gray-decoded timestamps corrected for the rollover of
 * their 17-bit counter.
 */
module Hit {
  import opened Wrappers
  import opened Bytes
  import opened Bits
  import opened Gray
  import Text

  datatype Field = Field(name: string, width: nat)

  type Layout = seq<Field>

  const ASTROPIX3_LAYOUT: Layout := [
    Field("chip_id", 5), Field("payload", 3), Field("column", 1), Field("reserved1", 1),
    Field("location", 6), Field("timestamp", 8), Field("reserved2", 4), Field("tot_msb", 4),
    Field("tot_lsb", 8)]

  const ASTROPIX4_LAYOUT: Layout := [
    Field("chip_id", 5), Field("payload", 3), Field("row", 5), Field("column", 5),
    Field("ts_neg1", 1), Field("ts_coarse1", 14), Field("ts_fine1", 3), Field("ts_tdc1", 5),
    Field("ts_neg2", 1), Field("ts_coarse2", 14), Field("ts_fine2", 3), Field("ts_tdc2", 5)]

  /** The `SIZE` class constants, as `_calculate_size` computes them (see LayoutSizes). */
  const ASTROPIX3_SIZE: nat := 5
  const ASTROPIX4_SIZE: nat := 8

  /** `CLOCK_ROLLOVER` of AstroPix4: coarse and fine counters together have 17 bits. */
  const CLOCK_ROLLOVER: nat := 131072

  /** Bit position at which field `i` starts: the widths of the fields before it. */
  function Offset(layout: Layout, i: nat): nat
    requires i <= |layout|
  {
    if i == 0 then 0 else Offset(layout, i - 1) + layout[i - 1].width
  }

  /** Total width of a layout, in bits. */
  function LayoutBits(layout: Layout): nat
  {
    Offset(layout, |layout|)
  }

  predicate PositiveWidths(layout: Layout)
  {
    forall i :: 0 <= i < |layout| ==> layout[i].width > 0
  }

  /** `_calculate_size`: the layout size in bytes, or an error when the bits do not fill whole bytes. */
  function CalculateSize(layout: Layout): (r: Result<nat, string>)
    ensures r.Ok? <==> LayoutBits(layout) % 8 == 0
    ensures r.Ok? ==> 8 * r.value == LayoutBits(layout)
  {
    var numBits := LayoutBits(layout);
    if numBits % 8 != 0 then Err("size in bits is not a multiple of 8") else Ok(numBits / 8)
  }

  /** Field `k` read from `bits`: the integer its bit range spells, None when `int('', 2)` raises. */
  function FieldAt(bits: string, layout: Layout, k: nat): Option<nat>
    requires k < |layout|
  {
    BitSlice(bits, Offset(layout, k), Offset(layout, k + 1))
  }

  predicate FieldsReadable(bits: string, layout: Layout, n: nat)
    requires n <= |layout|
  {
    forall k :: 0 <= k < n ==> FieldAt(bits, layout, k).Some?
  }

  /**
   * The field values `AbstractAstroPixHit.__init__` assigns, in layout
   * order, or None when one of the slices raises.
   */
  function FieldValues(bits: string, layout: Layout): (r: Option<seq<nat>>)
    ensures r.Some? <==> FieldsReadable(bits, layout, |layout|)
    ensures r.Some? ==> |r.value| == |layout|
  {
    if FieldsReadable(bits, layout, |layout|) then
      Some(seq(|layout|, k requires 0 <= k < |layout| => FieldAt(bits, layout, k).value))
    else None
  }

  /** The field values of a hit built from `data`. */
  function HitFields(data: seq<byte>, layout: Layout): Option<seq<nat>>
  {
    FieldValues(BitPattern(data), layout)
  }

  /**
   * The constructor loop of AbstractAstroPixHit: walk the layout, slicing
   * `width` bits at a time from a running position.
   */
  method ReadFields(data: seq<byte>, layout: Layout) returns (r: Option<seq<nat>>)
    ensures r == HitFields(data, layout)
  {
    var pattern := BitPattern(data);
    var values: seq<nat> := [];
    var pos := 0;
    var i := 0;
    while i < |layout|
      invariant 0 <= i <= |layout|
      invariant pos == Offset(layout, i)
      invariant FieldsReadable(pattern, layout, i)
      invariant |values| == i
      invariant forall k :: 0 <= k < i ==> values[k] == FieldAt(pattern, layout, k).value
    {
      var width := layout[i].width;
      var v := BitSlice(pattern, pos, pos + width);
      if v.None? {
        assert FieldAt(pattern, layout, i).None?;
        return None;
      }
      values := values + [v.value];
      pos := pos + width;
      i := i + 1;
    }
    assert values == FieldValues(pattern, layout).value;
    r := Some(values);
  }

  // ---------------------------------------------------------------------
  // The two hit types

  /** An AstroPix3 hit: its raw bytes, the layout fields and `tot` in clock cycles. */
  datatype AstroPix3Hit = AstroPix3Hit(
    data: seq<byte>,
    chipId: nat, payload: nat, column: nat, reserved1: nat, location: nat,
    timestamp: nat, reserved2: nat, totMsb: nat, totLsb: nat,
    tot: nat)

  /** An AstroPix4 hit: its raw bytes, the layout fields, the decoded timestamps and the host bookkeeping. */
  datatype AstroPix4Hit = AstroPix4Hit(
    data: seq<byte>,
    chipId: nat, payload: nat, row: nat, column: nat,
    tsNeg1: nat, tsCoarse1: nat, tsFine1: nat, tsTdc1: nat,
    tsNeg2: nat, tsCoarse2: nat, tsFine2: nat, tsTdc2: nat,
    tsDec1: nat, tsDec2: nat,
    readoutId: int, timestamp: int)

  /** `_compose_ts`: the coarse counter shifted left by 3, plus the fine counter, Gray-decoded. */
  function ComposeTs(tsCoarse: nat, tsFine: nat): nat
  {
    GrayDecode(tsCoarse * 8 + tsFine)
  }

  /** `_compose_ts`, which runs the `gray_to_decimal` loop. */
  method ComposeTimestamp(tsCoarse: nat, tsFine: nat) returns (ts: nat)
    ensures ts == ComposeTs(tsCoarse, tsFine)
  {
    ts := GrayToDecimal(tsCoarse * 8 + tsFine);
  }

  /** The stop timestamp, moved past the start one when the counter rolled over in between. */
  function RolledOver(tsDec1: nat, tsDec2: nat): nat
  {
    if tsDec2 < tsDec1 then tsDec2 + CLOCK_ROLLOVER else tsDec2
  }

  /** An AstroPix3 hit from its raw bytes and its nine layout fields. */
  function AstroPix3FromFields(data: seq<byte>, v: seq<nat>): AstroPix3Hit
    requires |v| == 9
  {
    AstroPix3Hit(data, v[0], v[1], v[2], v[3], v[4], v[5], v[6], v[7], v[8], v[7] * 256 + v[8])
  }

  /** An AstroPix4 hit from its raw bytes, its twelve layout fields and its two decoded timestamps. */
  function AstroPix4FromFields(data: seq<byte>, v: seq<nat>, tsDec1: nat, tsDec2: nat,
                               readoutId: int, timestamp: int): AstroPix4Hit
    requires |v| == 12
  {
    AstroPix4Hit(data, v[0], v[1], v[2], v[3], v[4], v[5], v[6], v[7], v[8], v[9], v[10], v[11],
                 tsDec1, tsDec2, readoutId, timestamp)
  }

  /** What `AstroPix3Hit(data)` builds, or None where it raises. */
  function AstroPix3HitOf(data: seq<byte>): Option<AstroPix3Hit>
  {
    var fields := HitFields(data, ASTROPIX3_LAYOUT);
    if fields.None? then None else Some(AstroPix3FromFields(data, fields.value))
  }

  /** What `AstroPix4Hit(data, readout_id, timestamp)` builds, or None where it raises. */
  function AstroPix4HitOf(data: seq<byte>, readoutId: int, timestamp: int): Option<AstroPix4Hit>
  {
    var fields := HitFields(data, ASTROPIX4_LAYOUT);
    if fields.None? then None
    else
      var v := fields.value;
      var tsDec1 := ComposeTs(v[5], v[6]);
      var tsDec2 := RolledOver(tsDec1, ComposeTs(v[9], v[10]));
      Some(AstroPix4FromFields(data, v, tsDec1, tsDec2, readoutId, timestamp))
  }

  /** The `AstroPix3Hit` constructor. */
  method NewAstroPix3Hit(data: seq<byte>) returns (r: Option<AstroPix3Hit>)
    ensures r == AstroPix3HitOf(data)
  {
    var fields := ReadFields(data, ASTROPIX3_LAYOUT);
    if fields.None? {
      return None;
    }
    r := Some(AstroPix3FromFields(data, fields.value));
  }

  /** The `AstroPix4Hit` constructor: read the fields, then decode and unroll the timestamps. */
  method NewAstroPix4Hit(data: seq<byte>, readoutId: int, timestamp: int) returns (r: Option<AstroPix4Hit>)
    ensures r == AstroPix4HitOf(data, readoutId, timestamp)
  {
    var fields := ReadFields(data, ASTROPIX4_LAYOUT);
    if fields.None? {
      return None;
    }
    var v := fields.value;
    var tsDec1 := ComposeTimestamp(v[5], v[6]);
    var tsDec2 := ComposeTimestamp(v[9], v[10]);
    AstroPix4HitOfFields(data, readoutId, timestamp, v, tsDec1, tsDec2);
    ghost var decoded2 := tsDec2;
    if tsDec2 < tsDec1 {
      tsDec2 := tsDec2 + CLOCK_ROLLOVER;
    }
    assert tsDec2 == RolledOver(tsDec1, decoded2);
    r := Some(AstroPix4FromFields(data, v, tsDec1, tsDec2, readoutId, timestamp));
  }

  lemma AstroPix4HitOfFields(data: seq<byte>, readoutId: int, timestamp: int, v: seq<nat>, d1: nat, d2: nat)
    requires HitFields(data, ASTROPIX4_LAYOUT) == Some(v)
    requires |v| == 12 && d1 == ComposeTs(v[5], v[6]) && d2 == ComposeTs(v[9], v[10])
    ensures AstroPix4HitOf(data, readoutId, timestamp) ==
      Some(AstroPix4FromFields(data, v, d1, RolledOver(d1, d2), readoutId, timestamp))
  {
  }

  /** `__eq__`: two hits are equal when their raw bytes are. */
  predicate SameHit(a: AstroPix4Hit, b: AstroPix4Hit)
  {
    a.data == b.data
  }

  /** `__eq__`, inherited by AstroPix3 hits: two hits are equal when their raw bytes are. */
  predicate SameAstroPix3Hit(a: AstroPix3Hit, b: AstroPix3Hit)
  {
    a.data == b.data
  }

  /** The layout fields of an AstroPix3 hit, in layout order. */
  function AstroPix3Fields(h: AstroPix3Hit): seq<nat>
  {
    [h.chipId, h.payload, h.column, h.reserved1, h.location, h.timestamp, h.reserved2, h.totMsb, h.totLsb]
  }

  /** The layout fields of an AstroPix4 hit, in layout order. */
  function LayoutFields(h: AstroPix4Hit): seq<nat>
  {
    [h.chipId, h.payload, h.row, h.column, h.tsNeg1, h.tsCoarse1, h.tsFine1, h.tsTdc1,
     h.tsNeg2, h.tsCoarse2, h.tsFine2, h.tsTdc2]
  }

  /** Every field written out in its width, in layout order: the inverse of FieldValues. */
  function EncodeFields(values: seq<nat>, layout: Layout): (r: string)
    requires |values| == |layout|
    ensures |r| == LayoutBits(layout)
  {
    if layout == [] then []
    else
      var n := |layout| - 1;
      OffsetPrefix(layout, n, n);
      EncodeFields(values[..n], layout[..n]) + ToBinary(values[n], layout[n].width)
  }

  // ---------------------------------------------------------------------
  // Layout arithmetic

  lemma {:induction false} OffsetPrefix(layout: Layout, m: nat, k: nat)
    requires k <= m <= |layout|
    ensures Offset(layout[..m], k) == Offset(layout, k)
  {
    if k > 0 {
      OffsetPrefix(layout, m, k - 1);
    }
  }

  lemma {:induction false} OffsetMonotone(layout: Layout, i: nat, j: nat)
    requires i <= j <= |layout|
    ensures Offset(layout, i) <= Offset(layout, j)
    decreases j
  {
    if i < j {
      OffsetMonotone(layout, i, j - 1);
    }
  }

  /** Where the AstroPix4 fields start; the last one, ts_tdc2, at bit 59. */
  lemma AstroPix4Offsets()
    ensures Offset(ASTROPIX4_LAYOUT, 11) == 59
    ensures LayoutBits(ASTROPIX4_LAYOUT) == 64
  {
    var l := ASTROPIX4_LAYOUT;
    assert Offset(l, 1) == 5;
    assert Offset(l, 2) == 8;
    assert Offset(l, 3) == 13;
    assert Offset(l, 4) == 18;
    assert Offset(l, 5) == 19;
    assert Offset(l, 6) == 33;
    assert Offset(l, 7) == 36;
    assert Offset(l, 8) == 41;
    assert Offset(l, 9) == 42;
    assert Offset(l, 10) == 56;
    assert Offset(l, 11) == 59;
    assert Offset(l, 12) == 64;
  }

  /** Where the AstroPix3 fields start; the last one, tot_lsb, at bit 32. */
  lemma AstroPix3Offsets()
    ensures Offset(ASTROPIX3_LAYOUT, 8) == 32
    ensures LayoutBits(ASTROPIX3_LAYOUT) == 40
  {
    var l := ASTROPIX3_LAYOUT;
    assert Offset(l, 1) == 5;
    assert Offset(l, 2) == 8;
    assert Offset(l, 3) == 9;
    assert Offset(l, 4) == 10;
    assert Offset(l, 5) == 16;
    assert Offset(l, 6) == 24;
    assert Offset(l, 7) == 28;
    assert Offset(l, 8) == 32;
    assert Offset(l, 9) == 40;
  }

  /** `_calculate_size` gives 5 bytes for AstroPix3 and 8 for AstroPix4. */
  lemma LayoutSizes()
    ensures CalculateSize(ASTROPIX3_LAYOUT) == Ok(ASTROPIX3_SIZE)
    ensures CalculateSize(ASTROPIX4_LAYOUT) == Ok(ASTROPIX4_SIZE)
  {
    AstroPix3Offsets();
    var size3 := CalculateSize(ASTROPIX3_LAYOUT);
    assert size3.value == 5;
    AstroPix4Offsets();
    var size4 := CalculateSize(ASTROPIX4_LAYOUT);
    assert size4.value == 8;
  }

  lemma BitSliceWithin(p: string, a: nat, b: nat)
    requires a < b <= |p|
    ensures BitSlice(p, a, b) == Some(BinValue(p[a..b]))
  {
    assert Text.Slice(p, a, b) == p[a..b];
  }

  // ---------------------------------------------------------------------
  // What the constructor loop reads

  /**
   * With positive widths, reading the fields succeeds exactly when the last
   * field starts before the end of the bits.
   */
  lemma FieldValuesDefined(bits: string, layout: Layout)
    requires PositiveWidths(layout) && |layout| > 0
    ensures FieldValues(bits, layout).Some? <==> Offset(layout, |layout| - 1) < |bits|
  {
    var n := |layout|;
    if Offset(layout, n - 1) < |bits| {
      forall k | 0 <= k < n
        ensures FieldAt(bits, layout, k).Some?
      {
        OffsetMonotone(layout, k, n - 1);
      }
    } else {
      assert FieldAt(bits, layout, n - 1).None?;
    }
  }

  /**
   * When the bits cover the layout, field `i` is the value of the bits
   * of its range, and so fits its width.
   */
  lemma FieldValueAt(bits: string, layout: Layout, i: nat)
    requires FieldValues(bits, layout).Some? && i < |layout|
    requires LayoutBits(layout) <= |bits|
    ensures Offset(layout, i + 1) <= |bits|
    ensures FieldValues(bits, layout).value[i] == BinValue(bits[Offset(layout, i)..Offset(layout, i + 1)])
    ensures FieldValues(bits, layout).value[i] < Pow2(layout[i].width)
  {
    OffsetMonotone(layout, i + 1, |layout|);
    var a, b := Offset(layout, i), Offset(layout, i + 1);
    assert FieldAt(bits, layout, i).Some?;
    BitSliceWithin(bits, a, b);
    BinValueBound(bits[a..b]);
  }

  lemma BitSlicePrefix(bits: string, n: nat, a: nat, b: nat)
    requires a < b <= n <= |bits|
    ensures BitSlice(bits[..n], a, b) == BitSlice(bits, a, b)
  {
    BitSliceWithin(bits, a, b);
    BitSliceWithin(bits[..n], a, b);
    assert bits[..n][a..b] == bits[a..b];
  }

  lemma FieldAtFront(bits: string, layout: Layout, k: nat)
    requires FieldValues(bits, layout).Some? && k < |layout| - 1
    requires LayoutBits(layout) <= |bits|
    ensures Offset(layout, |layout| - 1) <= |bits|
    ensures FieldAt(bits[..Offset(layout, |layout| - 1)], layout[..|layout| - 1], k) == FieldAt(bits, layout, k)
  {
    var n := |layout| - 1;
    OffsetMonotone(layout, n, n + 1);
    OffsetPrefix(layout, n, k);
    OffsetPrefix(layout, n, k + 1);
    OffsetMonotone(layout, k + 1, n);
    assert FieldsReadable(bits, layout, |layout|);
    assert FieldAt(bits, layout, k).Some?;
    var a, b, prefix, front := Offset(layout, k), Offset(layout, k + 1), bits[..Offset(layout, n)], layout[..n];
    BitSlicePrefix(bits, Offset(layout, n), a, b);
    assert Offset(front, k) == a && Offset(front, k + 1) == b;
    assert FieldAt(prefix, front, k) == BitSlice(prefix, a, b);
    assert FieldAt(bits, layout, k) == BitSlice(bits, a, b);
  }

  /** The fields of a layout but its last, read from the bits before the last field. */
  lemma FieldValuesFront(bits: string, layout: Layout)
    requires FieldValues(bits, layout).Some? && |layout| > 0
    requires LayoutBits(layout) <= |bits|
    ensures Offset(layout, |layout| - 1) <= |bits|
    ensures FieldValues(bits[..Offset(layout, |layout| - 1)], layout[..|layout| - 1]) ==
      Some(FieldValues(bits, layout).value[..|layout| - 1])
  {
    var n := |layout| - 1;
    OffsetMonotone(layout, n, n + 1);
    var prefix, front := bits[..Offset(layout, n)], layout[..n];
    forall k | 0 <= k < n
      ensures FieldAt(prefix, front, k) == FieldAt(bits, layout, k)
    {
      FieldAtFront(bits, layout, k);
    }
    FieldValuesAgree(prefix, front, bits, layout);
    assert |front| == n;
  }

  /** Reading agrees on a layout that starts another, field by field, when the fields agree. */
  lemma FieldValuesAgree(p: string, front: Layout, bits: string, layout: Layout)
    requires |front| <= |layout| && FieldValues(bits, layout).Some?
    requires forall k :: 0 <= k < |front| ==> FieldAt(p, front, k) == FieldAt(bits, layout, k)
    ensures FieldValues(p, front) == Some(FieldValues(bits, layout).value[..|front|])
  {
    assert FieldsReadable(p, front, |front|);
    var vs := FieldValues(bits, layout).value;
    var ws := FieldValues(p, front).value;
    assert forall k :: 0 <= k < |front| ==> ws[k] == vs[k];
    assert ws == vs[..|front|];
  }

  /** The fields tile the bits: writing them back out in their widths gives the bits read. */
  lemma {:induction false} EncodeFieldValues(bits: string, layout: Layout)
    requires IsBinary(bits)
    requires FieldValues(bits, layout).Some?
    requires |bits| == LayoutBits(layout)
    ensures EncodeFields(FieldValues(bits, layout).value, layout) == bits
    decreases |layout|
  {
    if layout != [] {
      var n := |layout| - 1;
      var o := Offset(layout, n);
      FieldValuesFront(bits, layout);
      OffsetPrefix(layout, n, n);
      EncodeFieldValues(bits[..o], layout[..n]);
      LastFieldBits(bits, layout);
      PrefixSuffix(bits, o);
    }
  }

  /** The last field of the bits read, written back out in its width, is the bits after the other fields. */
  lemma LastFieldBits(bits: string, layout: Layout)
    requires IsBinary(bits) && FieldValues(bits, layout).Some? && layout != []
    requires |bits| == LayoutBits(layout)
    ensures Offset(layout, |layout| - 1) <= |bits|
    ensures ToBinary(FieldValues(bits, layout).value[|layout| - 1], layout[|layout| - 1].width) ==
      bits[Offset(layout, |layout| - 1)..]
  {
    var n := |layout| - 1;
    var o := Offset(layout, n);
    FieldValueAt(bits, layout, n);
    var last := bits[o..];
    assert bits[o..Offset(layout, n + 1)] == last;
    ToBinaryOfBinValue(last);
  }

  lemma PrefixSuffix<T>(s: seq<T>, o: nat)
    requires o <= |s|
    ensures s[..o] + s[o..] == s
  {
  }

  /** Field `i` of an encoding is that field's value written in its width. */
  lemma {:induction false} EncodeFieldsAt(values: seq<nat>, layout: Layout, i: nat)
    requires |values| == |layout| && i < |layout|
    ensures Offset(layout, i + 1) <= LayoutBits(layout)
    ensures EncodeFields(values, layout)[Offset(layout, i)..Offset(layout, i + 1)] == ToBinary(values[i], layout[i].width)
    decreases |layout|
  {
    OffsetMonotone(layout, i + 1, |layout|);
    var n := |layout| - 1;
    OffsetPrefix(layout, n, n);
    var front := EncodeFields(values[..n], layout[..n]);
    var e := EncodeFields(values, layout);
    assert e == front + ToBinary(values[n], layout[n].width);
    if i < n {
      EncodeFieldsAt(values[..n], layout[..n], i);
      OffsetPrefix(layout, n, i);
      OffsetPrefix(layout, n, i + 1);
      OffsetMonotone(layout, i + 1, n);
      assert e[Offset(layout, i)..Offset(layout, i + 1)] == front[Offset(layout, i)..Offset(layout, i + 1)];
    }
  }

  /** Reading back fields that fit their widths gives them back. */
  lemma FieldValuesOfEncode(values: seq<nat>, layout: Layout)
    requires |values| == |layout| && PositiveWidths(layout)
    requires forall i :: 0 <= i < |layout| ==> values[i] < Pow2(layout[i].width)
    ensures FieldValues(EncodeFields(values, layout), layout) == Some(values)
  {
    var e := EncodeFields(values, layout);
    forall k | 0 <= k < |layout|
      ensures FieldAt(e, layout, k) == Some(values[k])
    {
      EncodeFieldsAt(values, layout, k);
      BitSliceWithin(e, Offset(layout, k), Offset(layout, k + 1));
      BinValueOfToBinary(values[k], layout[k].width);
    }
    assert FieldsReadable(e, layout, |layout|);
    var r := FieldValues(e, layout).value;
    assert forall k :: 0 <= k < |layout| ==> r[k] == values[k];
    assert r == values;
  }

  /**
   * Building a hit from `data` and writing its fields back out reproduces
   * `data` bit for bit, and every field fits its width.
   */
  lemma HitFieldsRoundTrip(data: seq<byte>, layout: Layout)
    requires LayoutBits(layout) == 8 * |data| && HitFields(data, layout).Some?
    ensures EncodeFields(HitFields(data, layout).value, layout) == BitPattern(data)
    ensures FromBits(EncodeFields(HitFields(data, layout).value, layout)) == data
    ensures forall i :: 0 <= i < |layout| ==> HitFields(data, layout).value[i] < Pow2(layout[i].width)
  {
    EncodeFieldValues(BitPattern(data), layout);
    FromBitsOfBitPattern(data);
    forall i | 0 <= i < |layout|
      ensures HitFields(data, layout).value[i] < Pow2(layout[i].width)
    {
      FieldValueAt(BitPattern(data), layout, i);
    }
  }

  lemma AstroPix4Widths()
    ensures PositiveWidths(ASTROPIX4_LAYOUT)
  {
  }

  lemma AstroPix3Widths()
    ensures PositiveWidths(ASTROPIX3_LAYOUT)
  {
  }

  /** An AstroPix4 hit can be built from 8 bytes or more; anything shorter raises. */
  lemma AstroPix4HitDefined(data: seq<byte>, readoutId: int, timestamp: int)
    ensures AstroPix4HitOf(data, readoutId, timestamp).Some? <==> |data| >= ASTROPIX4_SIZE
  {
    AstroPix4Offsets();
    AstroPix4Widths();
    FieldValuesDefined(BitPattern(data), ASTROPIX4_LAYOUT);
  }

  /** An AstroPix3 hit can be built from 5 bytes or more; anything shorter raises. */
  lemma AstroPix3HitDefined(data: seq<byte>)
    ensures AstroPix3HitOf(data).Some? <==> |data| >= ASTROPIX3_SIZE
  {
    AstroPix3Offsets();
    AstroPix3Widths();
    FieldValuesDefined(BitPattern(data), ASTROPIX3_LAYOUT);
  }

  // ---------------------------------------------------------------------
  // What the derived quantities mean

  /** Every field of a readable hit fits its width, whatever follows the hit in `data`. */
  lemma HitFieldBounds(data: seq<byte>, layout: Layout, i: nat)
    requires HitFields(data, layout).Some? && i < |layout|
    requires LayoutBits(layout) <= 8 * |data|
    ensures HitFields(data, layout).value[i] < Pow2(layout[i].width)
  {
    FieldValueAt(BitPattern(data), layout, i);
  }

  /**
   * `tot` of an AstroPix3 hit is the 12-bit number with tot_msb as its top
   * four bits and tot_lsb as its low eight.
   */
  lemma AstroPix3Tot(data: seq<byte>)
    requires AstroPix3HitOf(data).Some?
    ensures var h := AstroPix3HitOf(data).value;
      h.tot == h.totMsb * 256 + h.totLsb && h.totMsb < 16 && h.totLsb < 256 && h.tot < 4096
  {
    AstroPix3HitDefined(data);
    AstroPix3Offsets();
    HitFieldBounds(data, ASTROPIX3_LAYOUT, 7);
    HitFieldBounds(data, ASTROPIX3_LAYOUT, 8);
    assert Pow2(4) == 16 && Pow2(8) == 256;
  }

  /** The two halves of a Gray-coded timestamp stay below the rollover. */
  lemma ComposeTsBound(tsCoarse: nat, tsFine: nat)
    requires tsCoarse < Pow2(14) && tsFine < Pow2(3)
    ensures ComposeTs(tsCoarse, tsFine) < CLOCK_ROLLOVER
  {
    assert Pow2(3) == 8 && Pow2(14) == 16384 && Pow2(17) == CLOCK_ROLLOVER;
    GrayDecodeBound(tsCoarse * 8 + tsFine, 17);
  }

  /**
   * The AstroPix4 timestamps: the start one is below the rollover, the
   * stop one follows it by less than a rollover period and is the decoded
   * stop counter up to that period, so `tsDec2 - tsDec1` is the elapsed
   * count modulo 2^17.
   */
  lemma AstroPix4Timestamps(data: seq<byte>, readoutId: int, timestamp: int)
    requires AstroPix4HitOf(data, readoutId, timestamp).Some?
    ensures TimestampsUnrolled(AstroPix4HitOf(data, readoutId, timestamp).value)
  {
    AstroPix4Counters(data, readoutId, timestamp);
    CountersTimestamps(AstroPix4HitOf(data, readoutId, timestamp).value);
  }

  /**
   * The start timestamp is the decoded start counter, below the rollover;
   * the stop one follows it by less than a rollover period and is the
   * decoded stop counter up to that period, so their difference is the
   * elapsed count modulo the period.
   */
  predicate TimestampsUnrolled(h: AstroPix4Hit)
  {
    && h.tsDec1 == ComposeTs(h.tsCoarse1, h.tsFine1) < CLOCK_ROLLOVER
    && h.tsDec1 <= h.tsDec2 < h.tsDec1 + CLOCK_ROLLOVER
    && h.tsDec2 % CLOCK_ROLLOVER == ComposeTs(h.tsCoarse2, h.tsFine2)
    && h.tsDec2 - h.tsDec1 == (ComposeTs(h.tsCoarse2, h.tsFine2) - h.tsDec1) % CLOCK_ROLLOVER
  }

  /** The counters of an AstroPix4 hit fit their widths, and its timestamps are decoded from them. */
  lemma AstroPix4Counters(data: seq<byte>, readoutId: int, timestamp: int)
    requires AstroPix4HitOf(data, readoutId, timestamp).Some?
    ensures var h := AstroPix4HitOf(data, readoutId, timestamp).value;
      && h.tsCoarse1 < Pow2(14) && h.tsFine1 < Pow2(3) && h.tsCoarse2 < Pow2(14) && h.tsFine2 < Pow2(3)
      && h.tsDec1 == ComposeTs(h.tsCoarse1, h.tsFine1)
      && h.tsDec2 == RolledOver(h.tsDec1, ComposeTs(h.tsCoarse2, h.tsFine2))
  {
    AstroPix4HitDefined(data, readoutId, timestamp);
    AstroPix4Offsets();
    var l := ASTROPIX4_LAYOUT;
    HitFieldBounds(data, l, 5);
    HitFieldBounds(data, l, 6);
    HitFieldBounds(data, l, 9);
    HitFieldBounds(data, l, 10);
  }

  /** Timestamps decoded from counters that fit their widths are unrolled as they should be. */
  lemma CountersTimestamps(h: AstroPix4Hit)
    requires h.tsCoarse1 < Pow2(14) && h.tsFine1 < Pow2(3) && h.tsCoarse2 < Pow2(14) && h.tsFine2 < Pow2(3)
    requires h.tsDec1 == ComposeTs(h.tsCoarse1, h.tsFine1)
    requires h.tsDec2 == RolledOver(h.tsDec1, ComposeTs(h.tsCoarse2, h.tsFine2))
    ensures TimestampsUnrolled(h)
  {
    ComposeTsBound(h.tsCoarse1, h.tsFine1);
    ComposeTsBound(h.tsCoarse2, h.tsFine2);
    RolledOverSpan(h.tsDec1, ComposeTs(h.tsCoarse2, h.tsFine2));
  }

  /** Unrolling a stop count that is below the rollover, relative to a start count that is too. */
  lemma RolledOverSpan(d1: nat, d2: nat)
    requires d1 < CLOCK_ROLLOVER && d2 < CLOCK_ROLLOVER
    ensures d1 <= RolledOver(d1, d2) < d1 + CLOCK_ROLLOVER
    ensures RolledOver(d1, d2) % CLOCK_ROLLOVER == d2
    ensures RolledOver(d1, d2) - d1 == (d2 - d1) % CLOCK_ROLLOVER
  {
  }

  lemma LayoutFieldsOf(data: seq<byte>, readoutId: int, timestamp: int)
    requires AstroPix4HitOf(data, readoutId, timestamp).Some?
    ensures LayoutFields(AstroPix4HitOf(data, readoutId, timestamp).value) == HitFields(data, ASTROPIX4_LAYOUT).value
  {
  }

  /**
   * `__eq__` on 8-byte hits: two hits compare equal exactly when every
   * layout field agrees.
   */
  lemma SameHitIffSameFields(a: AstroPix4Hit, b: AstroPix4Hit)
    requires |a.data| == ASTROPIX4_SIZE && |b.data| == ASTROPIX4_SIZE
    requires AstroPix4HitOf(a.data, a.readoutId, a.timestamp) == Some(a)
    requires AstroPix4HitOf(b.data, b.readoutId, b.timestamp) == Some(b)
    ensures SameHit(a, b) <==> LayoutFields(a) == LayoutFields(b)
  {
    LayoutFieldsOf(a.data, a.readoutId, a.timestamp);
    LayoutFieldsOf(b.data, b.readoutId, b.timestamp);
    if LayoutFields(a) == LayoutFields(b) {
      AstroPix4Offsets();
      HitFieldsRoundTrip(a.data, ASTROPIX4_LAYOUT);
      HitFieldsRoundTrip(b.data, ASTROPIX4_LAYOUT);
      BitPatternInjective(a.data, b.data);
    }
  }

  lemma AstroPix3FieldsOf(data: seq<byte>)
    requires AstroPix3HitOf(data).Some?
    ensures AstroPix3Fields(AstroPix3HitOf(data).value) == HitFields(data, ASTROPIX3_LAYOUT).value
  {
  }

  /**
   * `__eq__` on 5-byte AstroPix3 hits: two hits compare equal exactly when
   * every layout field agrees.
   */
  lemma SameAstroPix3HitIffSameFields(a: AstroPix3Hit, b: AstroPix3Hit)
    requires |a.data| == ASTROPIX3_SIZE && |b.data| == ASTROPIX3_SIZE
    requires AstroPix3HitOf(a.data) == Some(a) && AstroPix3HitOf(b.data) == Some(b)
    ensures SameAstroPix3Hit(a, b) <==> AstroPix3Fields(a) == AstroPix3Fields(b)
  {
    AstroPix3FieldsOf(a.data);
    AstroPix3FieldsOf(b.data);
    if AstroPix3Fields(a) == AstroPix3Fields(b) {
      AstroPix3Offsets();
      HitFieldsRoundTrip(a.data, ASTROPIX3_LAYOUT);
      HitFieldsRoundTrip(b.data, ASTROPIX3_LAYOUT);
      BitPatternInjective(a.data, b.data);
    }
  }
}
