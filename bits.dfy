/**
 * Bit patterns: the MSB-first binary string of a byte sequence
 * (`BitPattern` in astropix_analysis/fmt.py), the integer a slice of it
 * spells, and the per-byte bit reversal `reverse_bit_order`.
 */
module Bits {
  import opened Wrappers
  import opened Bytes
  import Text

  predicate IsBinary(s: string)
  {
    forall k :: 0 <= k < |s| ==> s[k] == '0' || s[k] == '1'
  }

  /** `f'{v:0{w}b}'` for `v < 2^w`: the `w` low bits of `v`, most significant first. */
  function ToBinary(v: nat, w: nat): (r: string)
    ensures |r| == w && IsBinary(r)
  {
    if w == 0 then [] else ToBinary(v / 2, w - 1) + [if v % 2 == 1 then '1' else '0']
  }

  /** `int(s, 2)` for a non-empty binary string `s` (the empty string is handled by the caller). */
  function BinValue(s: string): nat
  {
    if s == [] then 0 else 2 * BinValue(s[..|s| - 1]) + (if s[|s| - 1] == '1' then 1 else 0)
  }

  /** `BitPattern(data)`: every byte as 8 binary digits, most significant bit first. */
  function BitPattern(data: seq<byte>): (r: string)
    ensures |r| == 8 * |data| && IsBinary(r)
  {
    if data == [] then [] else ToBinary(data[0], 8) + BitPattern(data[1..])
  }

  /**
   * `BitPattern.__getitem__(slice(a, b))`: the integer spelled by the clamped
   * slice; `int('', 2)` raises, which is None here.
   */
  function BitSlice(p: string, a: nat, b: nat): (r: Option<nat>)
    ensures r.Some? <==> a < b && a < |p|
  {
    var t := Text.Slice(p, a, b);
    if t == [] then None else Some(BinValue(t))
  }

  function Reverse<T>(s: seq<T>): (r: seq<T>)
    ensures |r| == |s|
    ensures forall k :: 0 <= k < |s| ==> r[k] == s[|s| - 1 - k]
  {
    if s == [] then [] else Reverse(s[1..]) + [s[0]]
  }

  /** One entry of `_BIT_REVERSE_TABLE`: `int(f'{b:08b}'[::-1], 2)`. */
  function ReverseByte(b: byte): byte
  {
    BinValueBound(Reverse(ToBinary(b, 8)));
    BinValue(Reverse(ToBinary(b, 8)))
  }

  /** `reverse_bit_order(data)`: `data.translate(_BIT_REVERSE_TABLE)`. */
  function ReverseBitOrder(data: seq<byte>): (r: seq<byte>)
  {
    seq(|data|, k requires 0 <= k < |data| => ReverseByte(data[k]))
  }

  // ---------------------------------------------------------------------
  // Binary strings and their values

  lemma {:induction false} BinValueBound(s: string)
    ensures BinValue(s) < Pow2(|s|)
  {
    if s != [] {
      BinValueBound(s[..|s| - 1]);
    }
  }

  /** Reading back the `w`-digit binary string of `v < 2^w` gives `v`. */
  lemma {:induction false} BinValueOfToBinary(v: nat, w: nat)
    requires v < Pow2(w)
    ensures BinValue(ToBinary(v, w)) == v
  {
    if w > 0 {
      BinValueOfToBinary(v / 2, w - 1);
      var t := ToBinary(v, w);
      assert t[..|t| - 1] == ToBinary(v / 2, w - 1);
    }
  }

  /** Writing out the value of a binary string in as many digits gives the string back. */
  lemma {:induction false} ToBinaryOfBinValue(s: string)
    requires IsBinary(s)
    ensures ToBinary(BinValue(s), |s|) == s
  {
    if s != [] {
      var init := s[..|s| - 1];
      ToBinaryOfBinValue(init);
      var v := BinValue(s);
      assert v / 2 == BinValue(init);
      assert s == init + [s[|s| - 1]];
    }
  }

  lemma {:induction false} BinValueAppend(s: string, t: string)
    ensures BinValue(s + t) == BinValue(s) * Pow2(|t|) + BinValue(t)
    decreases |t|
  {
    if t == [] {
      assert s + t == s;
    } else {
      var t' := t[..|t| - 1];
      var u := s + t;
      assert u[..|u| - 1] == s + t';
      assert u[|u| - 1] == t[|t| - 1];
      BinValueAppend(s, t');
      var a, p := BinValue(s), Pow2(|t'|);
      var bit := if t[|t| - 1] == '1' then 1 else 0;
      calc {
        BinValue(u);
        2 * BinValue(s + t') + bit;
        2 * (a * p + BinValue(t')) + bit;
        { assert 2 * (a * p) == a * (2 * p); }
        a * (2 * p) + (2 * BinValue(t') + bit);
        a * Pow2(|t|) + BinValue(t);
      }
    }
  }

  lemma {:induction false} BitPatternAppend(a: seq<byte>, b: seq<byte>)
    ensures BitPattern(a + b) == BitPattern(a) + BitPattern(b)
  {
    if a == [] {
      assert a + b == b;
    } else {
      assert (a + b)[0] == a[0] && (a + b)[1..] == a[1..] + b;
      BitPatternAppend(a[1..], b);
    }
  }

  /** Characters `8k .. 8k+8` of a bit pattern are byte `k` written MSB first. */
  lemma {:induction false} BitPatternByte(data: seq<byte>, k: nat)
    requires k < |data|
    ensures BitPattern(data)[8 * k..8 * k + 8] == ToBinary(data[k], 8)
    ensures BinValue(BitPattern(data)[8 * k..8 * k + 8]) == data[k]
  {
    if k > 0 {
      BitPatternByte(data[1..], k - 1);
      assert BitPattern(data) == ToBinary(data[0], 8) + BitPattern(data[1..]);
    }
    BinValueOfToBinary(data[k], 8);
  }

  /** A successful slice spells an integer below 2 to the slice width. */
  lemma BitSliceBound(p: string, a: nat, b: nat)
    requires BitSlice(p, a, b).Some?
    ensures BitSlice(p, a, b).value < Pow2(b - a)
  {
    var t := Text.Slice(p, a, b);
    BinValueBound(t);
    Pow2Monotone(|t|, b - a);
  }

  /** Bytes from a binary string whose length is a multiple of 8: the inverse of BitPattern. */
  function FromBits(bits: string): (r: seq<byte>)
    requires |bits| % 8 == 0
    ensures |r| == |bits| / 8
  {
    if bits == [] then []
    else
      BinValueBound(bits[..8]);
      [BinValue(bits[..8]) as byte] + FromBits(bits[8..])
  }

  lemma {:induction false} FromBitsOfBitPattern(data: seq<byte>)
    ensures FromBits(BitPattern(data)) == data
  {
    if data != [] {
      var p := BitPattern(data);
      assert p[..8] == ToBinary(data[0], 8) && p[8..] == BitPattern(data[1..]);
      BinValueOfToBinary(data[0], 8);
      FromBitsOfBitPattern(data[1..]);
    }
  }

  /** Two byte sequences with the same bit pattern are equal. */
  lemma BitPatternInjective(a: seq<byte>, b: seq<byte>)
    requires BitPattern(a) == BitPattern(b)
    ensures a == b
  {
    FromBitsOfBitPattern(a);
    FromBitsOfBitPattern(b);
  }

  // ---------------------------------------------------------------------
  // reverse_bit_order

  /** Each entry of the table writes out as the reversed binary digits of its byte. */
  lemma ReverseByteDigits(b: byte)
    ensures ToBinary(ReverseByte(b), 8) == Reverse(ToBinary(b, 8))
  {
    var r := Reverse(ToBinary(b, 8));
    assert IsBinary(r);
    ToBinaryOfBinValue(r);
  }

  lemma ReverseByteInvolution(b: byte)
    ensures ReverseByte(ReverseByte(b)) == b
  {
    ReverseByteDigits(b);
    var t := ToBinary(b, 8);
    assert Reverse(Reverse(t)) == t;
    BinValueOfToBinary(b, 8);
  }

  /**
   * reverse_bit_order keeps the length, maps every byte to its bit reversal,
   * and undoes itself.
   */
  lemma ReverseBitOrderSpec(data: seq<byte>)
    ensures |ReverseBitOrder(data)| == |data|
    ensures forall k :: 0 <= k < |data| ==>
      ToBinary(ReverseBitOrder(data)[k], 8) == Reverse(ToBinary(data[k], 8))
    ensures ReverseBitOrder(ReverseBitOrder(data)) == data
  {
    forall k | 0 <= k < |data|
      ensures ToBinary(ReverseBitOrder(data)[k], 8) == Reverse(ToBinary(data[k], 8))
      ensures ReverseBitOrder(ReverseBitOrder(data))[k] == data[k]
    {
      ReverseByteDigits(data[k]);
      ReverseByteInvolution(data[k]);
    }
  }
}
