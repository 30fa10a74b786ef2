/**
 * The protocol's VarInt: an `i32` written as little-endian 7-bit groups, the
 * high bit (0x80) of every byte but the last set as a continuation flag.
 *
 * `VarInt::encode`, `written_size` and `MAX_SIZE` live in the codec module,
 * which is not part of this model; they are given here their standard
 * definitions, and the decoder is the group loop of
 * wither-protocol/src/bytebuf/binary.rs.
 */
module VarInt {
  import opened Bytes
  import opened Wrappers

  /** `VarInt::MAX_SIZE`: five 7-bit groups cover 32 bits. */
  const MaxSize: nat := 5

  datatype DecodeError =
    | TooLarge    // MAX_SIZE groups read, all with the continuation bit set
    | Incomplete  // the input ended before a group without continuation bit

  function Pow128(k: nat): (p: nat)
    ensures p >= 1
  {
    if k == 0 then 1 else 128 * Pow128(k - 1)
  }

  /** The groups of a 32-bit pattern, least significant first. */
  function EncodeU32(u: nat): (s: seq<byte>)
    decreases u
  {
    if u < 128 then [u] else [u % 128 + 128] + EncodeU32(u / 128)
  }

  /** `VarInt(v).encode(buf)` appends exactly these bytes. */
  function Encode(v: int): (s: seq<byte>)
    requires IsI32(v)
  {
    EncodeU32(ToU32(v))
  }

  /** `VarInt(v).written_size()`. */
  function Size(v: int): (n: nat)
    requires IsI32(v)
    ensures n == |Encode(v)|
    ensures 1 <= n <= MaxSize
  {
    EncodeU32Length(ToU32(v), MaxSize);
    |Encode(v)|
  }

  lemma {:induction false} EncodeU32Length(u: nat, k: nat)
    requires 1 <= k && u < Pow128(k)
    ensures 1 <= |EncodeU32(u)| <= k
    ensures EncodeU32(u)[|EncodeU32(u)| - 1] < 128
    ensures forall j :: 0 <= j < |EncodeU32(u)| - 1 ==> EncodeU32(u)[j] >= 128
    decreases u
  {
    if u >= 128 {
      assert k > 1;
      EncodeU32Length(u / 128, k - 1);
    }
  }

  /** `g << (7 * i)` on unbounded integers: `g * 128^i`. */
  function Shift(g: nat, i: nat): nat
  {
    if i == 0 then g else 128 * Shift(g, i - 1)
  }

  /** `val |= (byte & 0x7F) << (7 * i)`, on the 32-bit pattern of `val`. */
  function Accumulate(acc: nat, b: byte, i: nat): (r: nat)
    ensures r < TwoTo32
  {
    (acc + Shift(b % 128, i)) % TwoTo32
  }

  /**
   * The group loop after `i` groups, `acc` being the 32-bit pattern of `val`
   * so far. `val |= (byte & 0x7F) << (7 * i)` on an `i32`: the groups occupy
   * disjoint bit ranges (acc < 128^i), so the OR is an addition, and the bits
   * shifted past bit 31 are dropped, which is the `% 2^32`.
   */
  function DecodeFrom(s: seq<byte>, i: nat, acc: nat): (r: Result<(int, seq<byte>), DecodeError>)
    requires acc < TwoTo32
    ensures r.Ok? ==> IsI32(r.value.0)
    decreases MaxSize - i
  {
    if MaxSize <= i then Err(TooLarge)
    else if s == [] then Err(Incomplete)
    else
      var acc' := Accumulate(acc, s[0], i);
      if s[0] < 128 then Ok((ToI32(acc'), s[1..]))
      else
        DecodeFrom(s[1..], i + 1, acc')
  }

  /** Reads one VarInt from the front of `s`; on success gives the value and the rest. */
  function Decode(s: seq<byte>): (r: Result<(int, seq<byte>), DecodeError>)
  {
    DecodeFrom(s, 0, 0)
  }

  /** Splitting off the low group: `u << 7i == (u % 128) << 7i + (u / 128) << 7(i+1)`. */
  lemma {:induction false} ShiftSplit(u: nat, i: nat)
    ensures Shift(u, i) == Shift(u % 128, i) + Shift(u / 128, i + 1)
  {
    if i > 0 {
      ShiftSplit(u, i - 1);
    }
  }

  /** A group shifted to position `i` stays below position `i + 1`. */
  lemma {:induction false} ShiftBound(g: nat, i: nat)
    requires g < 128
    ensures Shift(g, i) <= 127 * Pow128(i)
  {
    if i > 0 {
      ShiftBound(g, i - 1);
    }
  }

  /** One pass of the group loop on a byte `b` followed by `s`. */
  lemma DecodeStep(b: byte, s: seq<byte>, i: nat, acc: nat)
    requires acc < TwoTo32 && i < MaxSize
    ensures b < 128 ==> DecodeFrom([b] + s, i, acc) == Ok((ToI32(Accumulate(acc, b, i)), s))
    ensures b >= 128 ==> DecodeFrom([b] + s, i, acc) == DecodeFrom(s, i + 1, Accumulate(acc, b, i))
  {
    assert ([b] + s)[0] == b && ([b] + s)[1..] == s;
  }

  /** A successful decode consumes at least one byte and leaves a suffix of its input. */
  lemma {:induction false} DecodeLeavesSuffix(s: seq<byte>, i: nat, acc: nat)
    requires acc < TwoTo32
    ensures DecodeFrom(s, i, acc).Ok? ==>
      var rest := DecodeFrom(s, i, acc).value.1;
      |rest| < |s| && rest == s[|s| - |rest|..]
    decreases MaxSize - i
  {
    if i < MaxSize && s != [] && s[0] >= 128 {
      var acc' := Accumulate(acc, s[0], i);
      DecodeLeavesSuffix(s[1..], i + 1, acc');
      var r := DecodeFrom(s[1..], i + 1, acc');
      if r.Ok? {
        assert s[1..][|s[1..]| - |r.value.1|..] == s[|s| - |r.value.1|..];
      }
    }
  }

  /** Bytes after a complete VarInt do not change what is decoded; they stay in the rest. */
  lemma {:induction false} DecodeFromAppend(s: seq<byte>, t: seq<byte>, i: nat, acc: nat)
    requires acc < TwoTo32
    requires DecodeFrom(s, i, acc).Ok?
    ensures DecodeFrom(s + t, i, acc)
         == Ok((DecodeFrom(s, i, acc).value.0, DecodeFrom(s, i, acc).value.1 + t))
    decreases MaxSize - i
  {
    assert (s + t)[0] == s[0] && (s + t)[1..] == s[1..] + t;
    if s[0] >= 128 {
      DecodeFromAppend(s[1..], t, i + 1, Accumulate(acc, s[0], i));
    }
  }

  /** The low group of `u`, added at position `i`, stays below position `i + 1`. */
  lemma GroupStep(u: nat, i: nat, acc: nat)
    requires u >= 128 && acc < Pow128(i) && acc + Shift(u, i) < TwoTo32
    ensures Accumulate(acc, EncodeU32(u)[0], i) == acc + Shift(u % 128, i)
    ensures acc + Shift(u % 128, i) < Pow128(i + 1)
    ensures acc + Shift(u % 128, i) + Shift(u / 128, i + 1) == acc + Shift(u, i)
  {
    ShiftSplit(u, i);
    ShiftBound(u % 128, i);
    assert EncodeU32(u)[0] == u % 128 + 128;
  }

  /**
   * Decoding the groups of `u`, starting at group `i` with the bits below
   * group `i` already in `acc`, adds `u << 7i` to `acc`.
   */
  lemma {:induction false} DecodeEncodeFrom(u: nat, i: nat, acc: nat, rest: seq<byte>)
    requires acc < Pow128(i)
    requires acc + Shift(u, i) < TwoTo32
    requires i + |EncodeU32(u)| <= MaxSize
    ensures DecodeFrom(EncodeU32(u) + rest, i, acc) == Ok((ToI32(acc + Shift(u, i)), rest))
    decreases u
  {
    var s := EncodeU32(u) + rest;
    assert i < MaxSize && s != [];
    if u < 128 {
      assert s[0] == u && s[1..] == rest;
    } else {
      var acc' := acc + Shift(u % 128, i);
      GroupStep(u, i, acc);
      assert s[0] == EncodeU32(u)[0];
      assert s[1..] == EncodeU32(u / 128) + rest;
      DecodeEncodeFrom(u / 128, i + 1, acc', rest);
    }
  }

  /** Decoding what `encode` wrote gives back the value and leaves the rest untouched. */
  lemma DecodeEncode(v: int, rest: seq<byte>)
    requires IsI32(v)
    ensures Decode(Encode(v) + rest) == Ok((v, rest))
  {
    EncodeU32Length(ToU32(v), MaxSize);
    DecodeEncodeFrom(ToU32(v), 0, 0, rest);
  }

  /** The group loop stops with `TooLarge` once MAX_SIZE bytes all carried the continuation bit. */
  lemma {:induction false} DecodeTooLarge(s: seq<byte>, i: nat, acc: nat)
    requires acc < TwoTo32 && i <= MaxSize
    requires |s| >= MaxSize - i
    requires forall j :: 0 <= j < MaxSize - i ==> s[j] >= 128
    ensures DecodeFrom(s, i, acc) == Err(TooLarge)
    decreases MaxSize - i
  {
    if i < MaxSize {
      DecodeTooLarge(s[1..], i + 1, Accumulate(acc, s[0], i));
    }
  }

  /** Input that ends while every byte so far carried the continuation bit fails with `Incomplete`. */
  lemma {:induction false} DecodeIncomplete(s: seq<byte>, i: nat, acc: nat)
    requires acc < TwoTo32
    requires i + |s| < MaxSize
    requires forall j :: 0 <= j < |s| ==> s[j] >= 128
    ensures DecodeFrom(s, i, acc) == Err(Incomplete)
    decreases |s|
  {
    if s != [] {
      DecodeIncomplete(s[1..], i + 1, Accumulate(acc, s[0], i));
    }
  }
}
