/**
 * Gray-coded counters: `gray_to_decimal` (astropix_analysis/fmt.py) and
 * the binary-to-Gray map it inverts, over Python's unbounded
 * non-negative integers.
 */
module Gray {
  import opened Bytes

  /** Python's `a ^ b` on non-negative integers, one bit at a time from the bottom. */
  function Xor(a: nat, b: nat): nat
    decreases a + b
  {
    if a == 0 then b
    else if b == 0 then a
    else 2 * Xor(a / 2, b / 2) + (if a % 2 == b % 2 then 0 else 1)
  }

  /** The value of `gray_to_decimal(g)`: `g ^ (g >> 1) ^ (g >> 2) ^ ...`. */
  function GrayDecode(g: nat): nat
  {
    if g == 0 then 0 else Xor(g, GrayDecode(g / 2))
  }

  /** Binary to Gray: `n ^ (n >> 1)`. */
  function GrayEncode(n: nat): nat
  {
    Xor(n, n / 2)
  }

  /**
   * `gray_to_decimal`: xor the input with every right shift of itself
   * until the shifted mask is zero.
   */
  method GrayToDecimal(gray: nat) returns (decimal: nat)
    ensures decimal == GrayDecode(gray)
  {
    decimal := gray;
    var mask := gray;
    GrayDecodeUnfold(gray);
    while mask != 0
      invariant GrayDecode(gray) == Xor(decimal, GrayDecode(mask / 2))
      decreases mask
    {
      mask := mask / 2;
      GrayDecodeUnfold(mask);
      XorAssoc(decimal, mask, GrayDecode(mask / 2));
      decimal := Xor(decimal, mask);
    }
    XorZero(decimal);
  }

  // ---------------------------------------------------------------------
  // Algebra of Xor

  lemma XorSplit(a: nat, b: nat)
    ensures Xor(a, b) == 2 * Xor(a / 2, b / 2) + (if a % 2 == b % 2 then 0 else 1)
  {
    if a == 0 {
      assert Xor(a / 2, b / 2) == b / 2;
    } else if b == 0 {
      assert Xor(a / 2, b / 2) == a / 2 by { XorZero(a / 2); }
    }
  }

  lemma XorZero(a: nat)
    ensures Xor(a, 0) == a
  {
  }

  lemma {:induction false} XorSelf(a: nat)
    ensures Xor(a, a) == 0
    decreases a
  {
    if a > 0 {
      XorSelf(a / 2);
    }
  }

  lemma {:induction false} XorAssoc(a: nat, b: nat, c: nat)
    ensures Xor(Xor(a, b), c) == Xor(a, Xor(b, c))
    decreases a + b + c
  {
    if a + b + c > 0 {
      var x, y := Xor(a, b), Xor(b, c);
      XorSplit(a, b);
      XorSplit(b, c);
      assert x / 2 == Xor(a / 2, b / 2) && x % 2 == (if a % 2 == b % 2 then 0 else 1);
      assert y / 2 == Xor(b / 2, c / 2) && y % 2 == (if b % 2 == c % 2 then 0 else 1);
      XorAssoc(a / 2, b / 2, c / 2);
      XorSplit(x, c);
      XorSplit(a, y);
    }
  }

  lemma {:induction false} XorBound(a: nat, b: nat, k: nat)
    requires a < Pow2(k) && b < Pow2(k)
    ensures Xor(a, b) < Pow2(k)
  {
    if k > 0 {
      XorBound(a / 2, b / 2, k - 1);
      XorSplit(a, b);
    }
  }

  // ---------------------------------------------------------------------
  // Gray code

  lemma GrayDecodeUnfold(g: nat)
    ensures GrayDecode(g) == Xor(g, GrayDecode(g / 2))
  {
  }

  lemma {:induction false} GrayDecodeHalf(g: nat)
    ensures GrayDecode(g) / 2 == GrayDecode(g / 2)
    decreases g
  {
    if g > 0 {
      GrayDecodeHalf(g / 2);
      XorSplit(g, GrayDecode(g / 2));
    }
  }

  /** Decoding undoes encoding: `gray_to_decimal(n ^ (n >> 1)) == n`. */
  lemma {:induction false} GrayDecodeEncode(n: nat)
    ensures GrayDecode(GrayEncode(n)) == n
    decreases n
  {
    if n > 0 {
      var g := GrayEncode(n);
      XorSplit(n, n / 2);
      assert g / 2 == GrayEncode(n / 2);
      GrayDecodeEncode(n / 2);
      GrayDecodeUnfold(g);
      XorAssoc(n, n / 2, n / 2);
      XorSelf(n / 2);
      XorZero(n);
    }
  }

  /** Encoding undoes decoding, so the decoder is a bijection on the naturals. */
  lemma GrayEncodeDecode(g: nat)
    ensures GrayEncode(GrayDecode(g)) == g
  {
    GrayDecodeHalf(g);
    GrayDecodeUnfold(g);
    var d := GrayDecode(g / 2);
    XorAssoc(g, d, d);
    XorSelf(d);
    XorZero(g);
  }

  /** Decoding keeps a `k`-bit counter within `k` bits, and maps 0 to 0. */
  lemma {:induction false} GrayDecodeBound(g: nat, k: nat)
    requires g < Pow2(k)
    ensures GrayDecode(g) < Pow2(k)
    ensures g == 0 ==> GrayDecode(g) == 0
    decreases g
  {
    if g > 0 {
      GrayDecodeBound(g / 2, k);
      XorBound(g, GrayDecode(g / 2), k);
    }
  }
}
