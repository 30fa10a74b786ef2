/**
 * Bytes and fixed-width integers.
 *
 * Dafny integers are unbounded; the Rust code works on `u8`, `u16`, `i32`, `u32`,
 * `u128` and `usize`. Each cast the source performs is written out here.
 */
module Bytes {

  type byte = b: int | 0 <= b < 256

  const TwoTo31: nat := 0x8000_0000
  const TwoTo32: nat := 0x1_0000_0000
  const TwoTo64: nat := 0x1_0000_0000_0000_0000

  predicate IsI32(v: int) { -(TwoTo31 as int) <= v < TwoTo31 }

  predicate IsU32(v: int) { 0 <= v < TwoTo32 }

  /** Reads a 32-bit pattern as an `i32` (two's complement). */
  function ToI32(u: nat): (v: int)
    requires u < TwoTo32
    ensures IsI32(v)
    ensures v >= 0 <==> u < TwoTo31
    ensures (v + TwoTo32) % TwoTo32 == u
  {
    if u < TwoTo31 then u else u - TwoTo32
  }

  /** The 32-bit pattern of an `i32`. */
  function ToU32(v: int): (u: nat)
    requires IsI32(v)
    ensures u < TwoTo32
    ensures ToI32(u) == v
  {
    if v < 0 then v + TwoTo32 else v
  }

  /** Rust's `n as i32` on a non-negative `usize`: keeps the low 32 bits. */
  function AsI32(n: nat): (v: int)
    ensures IsI32(v)
    ensures n < TwoTo31 ==> v == n
    ensures (v - n) % TwoTo32 == 0
  {
    ToI32(n % TwoTo32)
  }

  /** Rust's `v as usize` on an `i32` (64-bit target): negative values wrap to huge ones. */
  function AsUsize(v: int): (n: nat)
    requires IsI32(v)
    ensures v >= 0 ==> n == v
    ensures v < 0 ==> n >= TwoTo64 - TwoTo31
    ensures n < TwoTo64 && (n - v) % TwoTo64 == 0
  {
    if v < 0 then v + TwoTo64 else v
  }

  function Pow256(k: nat): (p: nat)
    ensures p >= 1
  {
    if k == 0 then 1 else 256 * Pow256(k - 1)
  }

  /** The unsigned integer whose big-endian bytes are `s` (`u16::from_be_bytes`, `u128::from_be_bytes`). */
  function FromBigEndian(s: seq<byte>): (n: nat)
    ensures n < Pow256(|s|)
  {
    if s == [] then 0 else FromBigEndian(s[..|s| - 1]) * 256 + s[|s| - 1]
  }

  /** The `k` big-endian bytes of `n` modulo 256^k (`to_be_bytes`). */
  function ToBigEndian(n: nat, k: nat): (s: seq<byte>)
    ensures |s| == k
  {
    if k == 0 then [] else ToBigEndian(n / 256, k - 1) + [n % 256]
  }

  lemma {:induction false} FromToBigEndian(n: nat, k: nat)
    requires n < Pow256(k)
    ensures FromBigEndian(ToBigEndian(n, k)) == n
  {
    if k > 0 {
      var s := ToBigEndian(n, k);
      assert s[..k - 1] == ToBigEndian(n / 256, k - 1);
      assert n / 256 < Pow256(k - 1);
      FromToBigEndian(n / 256, k - 1);
    }
  }

  lemma {:induction false} ToFromBigEndian(s: seq<byte>)
    ensures ToBigEndian(FromBigEndian(s), |s|) == s
  {
    if s != [] {
      var init := s[..|s| - 1];
      var n := FromBigEndian(s);
      assert n / 256 == FromBigEndian(init);
      assert n % 256 == s[|s| - 1];
      ToFromBigEndian(init);
    }
  }
}
