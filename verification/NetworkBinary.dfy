/**
 * `Binary` of wither-network/src/types/binary.rs: a byte string serialized
 * as a VarInt length element followed by the bytes, and read back by a
 * visitor that takes one VarInt element and then that many byte elements.
 * `Binary::new(v)` is the datatype constructor: it keeps `v` as it is.
 *
 * The serializer is not part of this model: a VarInt element is taken to be
 * written as its VarInt bytes and a byte slice as its bytes, with no framing
 * of its own.
 */
module NetworkBinary {
  import opened Bytes
  import opened Wrappers
  import opened SeqAccess
  import VarInt

  datatype Binary = Binary(inner: seq<byte>)

  const InvalidVarIntMessage := "invalid varint"
  const IncompleteMessage := "Binary was ended incompletely"

  /**
   * `serialize`: a sequence declared `len + 1` long holding `VarInt(len as i32)`
   * and the slice. The count is cast to `i32`, so it wraps from 2^31 bytes on.
   */
  function Serialize(b: Binary): (r: Serialized)
    ensures r.declaredLen == |b.inner| + 1
    ensures |b.inner| < TwoTo31 ==> r.bytes == VarInt.Encode(|b.inner|) + b.inner
    ensures |r.bytes| > |b.inner| && r.bytes[|r.bytes| - |b.inner|..] == b.inner
  {
    Serialized(|b.inner| + 1, VarInt.Encode(AsI32(|b.inner|)) + b.inner)
  }

  /** What `visit_seq` computes: one VarInt element, then that many bytes in order. */
  function Visit(input: seq<byte>): (r: Result<(Binary, seq<byte>), DeError>)
  {
    match NextVarInt(input)
    case Err(e) => Err(e)
    case Ok(None) => Err(Custom(InvalidVarIntMessage))
    case Ok(Some((count, rest))) =>
      var n := Iterations(count);
      if |rest| < n then Err(Custom(IncompleteMessage))
      else Ok((Binary(rest[..n]), rest[n..]))
  }

  /** `BinaryVisitor::visit_seq`: the counted loop pushing one byte element at a time. */
  method VisitSeq(input: seq<byte>) returns (r: Result<(Binary, seq<byte>), DeError>)
    ensures r == Visit(input)
  {
    var first := NextVarInt(input);
    match first
    case Err(e) =>
      return Err(e);
    case Ok(None) =>
      return Err(Custom(InvalidVarIntMessage));
    case Ok(Some((count, afterCount))) =>
      var pending := afterCount;
      var out: seq<byte> := [];
      var k := 0;
      while k < count
        invariant 0 <= k <= Iterations(count)
        invariant k <= |afterCount| && out == afterCount[..k] && pending == afterCount[k..]
      {
        match NextByte(pending)
        case None =>
          return Err(Custom(IncompleteMessage));
        case Some((b, next)) =>
          out := out + [b];
          pending := next;
        k := k + 1;
      }
      return Ok((Binary(out), pending));
  }

  /** Deserialising what `serialize` emitted gives back the same bytes and stops at their end. */
  lemma VisitSerialize(b: Binary, rest: seq<byte>)
    requires |b.inner| < TwoTo31
    ensures Visit(Serialize(b).bytes + rest) == Ok((b, rest))
  {
    assert Serialize(b).bytes + rest == VarInt.Encode(|b.inner|) + (b.inner + rest);
    NextVarIntEncode(|b.inner|, b.inner + rest);
    assert (b.inner + rest)[..|b.inner|] == b.inner;
    assert (b.inner + rest)[|b.inner|..] == rest;
  }

  /** An exhausted sequence has no leading VarInt: "invalid varint". */
  lemma VisitEmpty()
    ensures Visit([]) == Err(Custom(InvalidVarIntMessage))
  {
  }

  /** A count of zero or below gives an empty Binary and reads no further element. */
  lemma VisitNonPositive(count: int, rest: seq<byte>)
    requires IsI32(count) && count <= 0
    ensures Visit(VarInt.Encode(count) + rest) == Ok((Binary([]), rest))
  {
    NextVarIntEncode(count, rest);
  }

  /** Fewer bytes than the count announces: "Binary was ended incompletely". */
  lemma VisitTruncated(count: int, data: seq<byte>)
    requires IsI32(count) && |data| < count
    ensures Visit(VarInt.Encode(count) + data) == Err(Custom(IncompleteMessage))
  {
    NextVarIntEncode(count, data);
  }
}
