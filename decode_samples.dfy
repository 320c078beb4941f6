/**
 * The sample readouts of tests/test_decode.py that the `decode` of
 * astropix_analysis/fmt.py handles: two well separated hits, two hits with
 * no idle bytes between them, and one hit whose bytes happen to contain
 * the 0xe0 that starts a frame.
 */
module DecodeSamples {
  import opened Wrappers
  import opened Bytes
  import opened Bits
  import opened Hit
  import opened Readout

  const HIT_1_BYTES: seq<byte> := [0xe0, 0x50, 0x42, 0x03, 0x06, 0x20, 0xd7, 0x01]
  const HIT_2_BYTES: seq<byte> := [0xe0, 0x50, 0x41, 0x13, 0x06, 0x20, 0xd7, 0x01]
  const HIT_3_BYTES: seq<byte> := [0xe0, 0x50, 0x42, 0xe0, 0x50, 0x41, 0x13, 0x06]

  /**
   * Two distinct hits, each behind two idle bytes:
   * bcbc e05042030620d701 bcbc e05041130620d701 bcbcbcbcbcbc, then 14 bytes ff.
   */
  const SAMPLE_0: seq<byte> := Idles(2) + HIT_1_BYTES + Idles(2) + HIT_2_BYTES + Idles(6) + Padding(14)

  /**
   * The same two hits with no idle bytes between them:
   * bcbc e05042030620d701 e05041130620d701 bcbcbcbcbcbc, then 16 bytes ff.
   */
  const SAMPLE_1: seq<byte> := Idles(2) + HIT_1_BYTES + HIT_2_BYTES + Idles(6) + Padding(16)

  /**
   * One hit with a 0xe0 in its middle:
   * bcbc e05042e050411306 bcbcbcbcbcbc, then 24 bytes ff.
   */
  const SAMPLE_5: seq<byte> := Idles(2) + HIT_3_BYTES + Idles(6) + Padding(24)

  /** `_create_hit`: the hit built from a frame's bytes with their bit order reversed, readout id and timestamp 0. */
  function TestHit(frame: seq<byte>): AstroPix4Hit
    requires |frame| == ASTROPIX4_SIZE
  {
    AstroPix4HitDefined(ReverseBitOrder(frame), 0, 0);
    AstroPix4HitOf(ReverseBitOrder(frame), 0, 0).value
  }

  lemma Sample0Frames()
    ensures SAMPLE_0 == Framed([2, 2], [HIT_1_BYTES, HIT_2_BYTES], 6) + Padding(14)
  {
    var gaps, frames := [2, 2], [HIT_1_BYTES, HIT_2_BYTES];
    assert gaps[1..] == [2] && frames[1..] == [HIT_2_BYTES];
    assert Framed([2], [HIT_2_BYTES], 6) == Idles(2) + HIT_2_BYTES + Idles(6);
  }

  lemma Sample1Frames()
    ensures SAMPLE_1 == Framed([2, 0], [HIT_1_BYTES, HIT_2_BYTES], 6) + Padding(16)
  {
    var gaps, frames := [2, 0], [HIT_1_BYTES, HIT_2_BYTES];
    assert gaps[1..] == [0] && frames[1..] == [HIT_2_BYTES];
    assert Framed([0], [HIT_2_BYTES], 6) == Idles(0) + HIT_2_BYTES + Idles(6);
    assert Idles(0) + HIT_2_BYTES == HIT_2_BYTES;
  }

  lemma Sample5Frames()
    ensures SAMPLE_5 == Framed([2], [HIT_3_BYTES], 6) + Padding(24)
  {
    var gaps, frames := [2], [HIT_3_BYTES];
    assert gaps[1..] == [] && frames[1..] == [];
  }

  /** The hit of a single frame that builds one. */
  lemma HitsOfOne<H>(h: seq<byte>, build: seq<byte> -> Option<H>)
    requires build(h).Some?
    ensures Buildable([h], build) && HitsOf([h], build) == [build(h).value]
  {
  }

  /** The hits of two frames, each of which builds one. */
  lemma HitsOfTwo<H>(h1: seq<byte>, h2: seq<byte>, build: seq<byte> -> Option<H>)
    requires build(h1).Some? && build(h2).Some?
    ensures Buildable([h1, h2], build) && HitsOf([h1, h2], build) == [build(h1).value, build(h2).value]
  {
  }

  /** Two frames behind their idle bytes decode to the two test hits of their bytes. */
  lemma TwoFramesDecode(g1: nat, h1: seq<byte>, g2: nat, h2: seq<byte>, tail: nat, padding: nat)
    requires |h1| == ASTROPIX4_SIZE && h1[0] != IDLE_BYTE && |h2| == ASTROPIX4_SIZE && h2[0] != IDLE_BYTE
    requires tail > 0
    ensures DecodeSpec(NewReadout(Framed([g1, g2], [h1, h2], tail) + Padding(padding), 0, 0), true) ==
      Ok([TestHit(h1), TestHit(h2)])
  {
    var frames := [h1, h2];
    assert WellFramed(frames, ASTROPIX4_SIZE);
    FramedEndsIdle([g1, g2], frames, tail);
    DecodeReadoutFramed([g1, g2], frames, tail, padding, 0, 0, true);
    var r := NewReadout(Framed([g1, g2], frames, tail) + Padding(padding), 0, 0);
    HitsOfTwo(h1, h2, HitBuilder(r, true));
  }

  /** One frame behind its idle bytes decodes to the test hit of its bytes. */
  lemma OneFrameDecodes(g: nat, h: seq<byte>, tail: nat, padding: nat)
    requires |h| == ASTROPIX4_SIZE && h[0] != IDLE_BYTE && tail > 0
    ensures DecodeSpec(NewReadout(Framed([g], [h], tail) + Padding(padding), 0, 0), true) == Ok([TestHit(h)])
  {
    var frames := [h];
    assert WellFramed(frames, ASTROPIX4_SIZE);
    FramedEndsIdle([g], frames, tail);
    DecodeReadoutFramed([g], frames, tail, padding, 0, 0, true);
    var r := NewReadout(Framed([g], frames, tail) + Padding(padding), 0, 0);
    HitsOfOne(h, HitBuilder(r, true));
  }

  /** `test_sample_0`: a normal readout decodes to its two hits. */
  lemma Sample0Decodes()
    ensures DecodeSpec(NewReadout(SAMPLE_0, 0, 0), true) == Ok([TestHit(HIT_1_BYTES), TestHit(HIT_2_BYTES)])
  {
    Sample0Frames();
    TwoFramesDecode(2, HIT_1_BYTES, 2, HIT_2_BYTES, 6, 14);
  }

  /** `test_sample_1`: with no idle bytes between the hits, the readout still decodes to both. */
  lemma Sample1Decodes()
    ensures DecodeSpec(NewReadout(SAMPLE_1, 0, 0), true) == Ok([TestHit(HIT_1_BYTES), TestHit(HIT_2_BYTES)])
  {
    Sample1Frames();
    TwoFramesDecode(2, HIT_1_BYTES, 0, HIT_2_BYTES, 6, 16);
  }

  /** `test_sample_5`: the 0xe0 inside the frame does not start a new one; the readout holds a single hit. */
  lemma Sample5Decodes()
    ensures DecodeSpec(NewReadout(SAMPLE_5, 0, 0), true) == Ok([TestHit(HIT_3_BYTES)])
  {
    Sample5Frames();
    OneFrameDecodes(2, HIT_3_BYTES, 6, 24);
  }
}
