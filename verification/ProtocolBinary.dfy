/**
 * `Binary` of wither-protocol/src/bytebuf/binary.rs: a byte string that is
 * serialized as its bytes and read back by a visitor that decodes the VarInt
 * length prefix itself, group by group, then pulls that many bytes.
 */
module ProtocolBinary {
  import opened Bytes
  import opened Wrappers
  import opened SeqAccess
  import VarInt

  datatype Binary = Binary(bytes: seq<byte>)

  /** `serialize`: the inner bytes go to `serialize_bytes` as they are. */
  function Serialize(b: Binary): (r: seq<byte>)
    ensures |r| == |b.bytes|
    ensures forall i :: 0 <= i < |r| ==> r[i] == b.bytes[i]
  {
    b.bytes
  }

  const TooLargeMessage := "VarInt was too large"
  const IncompleteMessage := "Binary was ended incompletely"

  /**
   * What `visit_seq` computes: the length prefix (either failure of the group
   * loop reports "VarInt was too large"), then that many bytes in input order;
   * a prefix that reads as a non-positive `i32` gives an empty Binary.
   */
  function Visit(input: seq<byte>): (r: Result<(Binary, seq<byte>), DeError>)
  {
    match VarInt.Decode(input)
    case Err(_) => Err(Custom(TooLargeMessage))
    case Ok((val, rest)) =>
      var n := Iterations(val);
      if |rest| < n then Err(Custom(IncompleteMessage))
      else Ok((Binary(rest[..n]), rest[n..]))
  }

  /** `BinaryVisitor::visit_seq`, with its two loops; `pending` is what the sequence has left. */
  method VisitSeq(input: seq<byte>) returns (r: Result<(Binary, seq<byte>), DeError>)
    ensures r == Visit(input)
  {
    var pending := input;
    var i: nat := 0;
    var val: nat := 0;  // the 32-bit pattern of the `i32` accumulator
    while true
      invariant i <= VarInt.MaxSize && val < TwoTo32
      invariant VarInt.DecodeFrom(pending, i, val) == VarInt.Decode(input)
      decreases VarInt.MaxSize - i
    {
      if VarInt.MaxSize <= i {
        return Err(Custom(TooLargeMessage));
      }
      match NextByte(pending)
      case None =>
        return Err(Custom(TooLargeMessage));
      case Some((b, next)) =>
        assert pending == [b] + next;
        VarInt.DecodeStep(b, next, i, val);
        pending := next;
        val := VarInt.Accumulate(val, b, i);
        if b < 128 {
          break;
        }
        i := i + 1;
    }
    assert VarInt.Decode(input) == Ok((ToI32(val), pending));

    ghost var afterPrefix := pending;
    var count := ToI32(val);
    ghost var n := Iterations(count);
    assert Visit(input) == if |afterPrefix| < n then Err(Custom(IncompleteMessage))
                           else Ok((Binary(afterPrefix[..n]), afterPrefix[n..]));
    var out: seq<byte> := [];
    var k := 0;
    while k < count
      invariant 0 <= k <= n
      invariant k <= |afterPrefix| && out == afterPrefix[..k] && pending == afterPrefix[k..]
    {
      match NextByte(pending)
      case None =>
        return Err(Custom(IncompleteMessage));
      case Some((b, next)) =>
        out := out + [b];
        pending := next;
      k := k + 1;
    }
    assert k == n;
    return Ok((Binary(out), pending));
  }

  /** A length prefix followed by that many bytes is read back as exactly those bytes. */
  lemma VisitLengthPrefixed(b: Binary, rest: seq<byte>)
    requires |b.bytes| < TwoTo31
    ensures Visit(VarInt.Encode(|b.bytes|) + Serialize(b) + rest) == Ok((b, rest))
  {
    var s := VarInt.Encode(|b.bytes|) + Serialize(b) + rest;
    assert s == VarInt.Encode(|b.bytes|) + (b.bytes + rest);
    VarInt.DecodeEncode(|b.bytes|, b.bytes + rest);
    assert (b.bytes + rest)[..|b.bytes|] == b.bytes;
    assert (b.bytes + rest)[|b.bytes|..] == rest;
  }

  /** A prefix that reads as zero or a negative `i32` yields an empty Binary and consumes nothing more. */
  lemma VisitNonPositive(v: int, rest: seq<byte>)
    requires IsI32(v) && v <= 0
    ensures Visit(VarInt.Encode(v) + rest) == Ok((Binary([]), rest))
  {
    VarInt.DecodeEncode(v, rest);
  }

  /** Fewer bytes than the prefix announces: "Binary was ended incompletely". */
  lemma VisitTruncated(n: int, data: seq<byte>)
    requires IsI32(n) && |data| < n
    ensures Visit(VarInt.Encode(n) + data) == Err(Custom(IncompleteMessage))
  {
    VarInt.DecodeEncode(n, data);
  }

  /** MAX_SIZE bytes that all carry the continuation bit: "VarInt was too large". */
  lemma VisitPrefixTooLong(input: seq<byte>)
    requires |input| >= VarInt.MaxSize
    requires forall j :: 0 <= j < VarInt.MaxSize ==> input[j] >= 128
    ensures Visit(input) == Err(Custom(TooLargeMessage))
  {
    VarInt.DecodeTooLarge(input, 0, 0);
  }

  /** Input that ends inside the prefix fails with the same message. */
  lemma VisitEndsInPrefix(input: seq<byte>)
    requires |input| < VarInt.MaxSize
    requires forall j :: 0 <= j < |input| ==> input[j] >= 128
    ensures Visit(input) == Err(Custom(TooLargeMessage))
  {
    VarInt.DecodeIncomplete(input, 0, 0);
  }
}
