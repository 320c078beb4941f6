/** Bytes and the fixed-width little-endian integers of Python's `struct` module. */
module Bytes {
  import opened Wrappers

  type byte = b: int | 0 <= b < 256

  function Pow2(k: nat): (r: nat)
    ensures r >= 1
  {
    if k == 0 then 1 else 2 * Pow2(k - 1)
  }

  lemma {:induction false} Pow2Add(a: nat, b: nat)
    ensures Pow2(a + b) == Pow2(a) * Pow2(b)
  {
    if a > 0 {
      Pow2Add(a - 1, b);
    }
  }

  lemma {:induction false} Pow2Monotone(a: nat, b: nat)
    requires a <= b
    ensures Pow2(a) <= Pow2(b)
  {
    if a < b {
      Pow2Monotone(a, b - 1);
    }
  }

  /** 256^n, the number of values an n-byte unsigned integer can hold. */
  function Pow256(n: nat): (r: nat)
    ensures r >= 1
  {
    if n == 0 then 1 else 256 * Pow256(n - 1)
  }

  /** The n bytes of `v` (taken modulo 256^n), least significant first. */
  function LittleEndian(v: nat, n: nat): (r: seq<byte>)
    ensures |r| == n
  {
    if n == 0 then [] else [(v % 256) as byte] + LittleEndian(v / 256, n - 1)
  }

  /** The unsigned integer spelled by `s`, least significant byte first. */
  function FromLittleEndian(s: seq<byte>): (v: nat)
  {
    if s == [] then 0 else s[0] + 256 * FromLittleEndian(s[1..])
  }

  lemma {:induction false} FromLittleEndianBound(s: seq<byte>)
    ensures FromLittleEndian(s) < Pow256(|s|)
  {
    if s != [] {
      FromLittleEndianBound(s[1..]);
    }
  }

  /** Unpacking what was packed gives the value back, for every value that fits. */
  lemma {:induction false} LittleEndianRoundTrip(v: nat, n: nat)
    requires v < Pow256(n)
    ensures FromLittleEndian(LittleEndian(v, n)) == v
  {
    if n > 0 {
      LittleEndianRoundTrip(v / 256, n - 1);
      assert LittleEndian(v, n)[1..] == LittleEndian(v / 256, n - 1);
    }
  }

  /** Packing what was unpacked gives the bytes back. */
  lemma {:induction false} FromLittleEndianRoundTrip(s: seq<byte>)
    ensures LittleEndian(FromLittleEndian(s), |s|) == s
  {
    if s != [] {
      var v := FromLittleEndian(s);
      var rest := FromLittleEndian(s[1..]);
      assert v == s[0] + 256 * rest;
      assert v % 256 == s[0] && v / 256 == rest;
      FromLittleEndianRoundTrip(s[1..]);
      assert LittleEndian(v, |s|) == [s[0]] + LittleEndian(rest, |s| - 1);
      assert s == [s[0]] + s[1..];
    }
  }

  /**
   * struct.pack with an unsigned format of `n` bytes ('<L', '<Q', 'I'):
   * the little-endian bytes of `v`, or a failure (struct.error) when `v`
   * is negative or does not fit.
   */
  function Pack(v: int, n: nat): (r: Option<seq<byte>>)
    ensures r.Some? <==> 0 <= v < Pow256(n)
    ensures r.Some? ==> |r.value| == n && FromLittleEndian(r.value) == v
  {
    if 0 <= v < Pow256(n) then
      LittleEndianRoundTrip(v, n);
      Some(LittleEndian(v, n))
    else None
  }

}
