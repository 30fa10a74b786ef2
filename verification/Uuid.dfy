/**
 * `Uuid` of wither-network/src/types/uuid.rs: serialized as one 128-bit
 * integer, read back as sixteen byte elements placed in order into a
 * 16-byte array. A UUID is kept as its sixteen bytes (`from_bytes`), and
 * `as_u128` reads them big-endian.
 */
module Uuid {
  import opened Bytes
  import opened Wrappers
  import opened SeqAccess

  const UuidLength: nat := 16

  datatype Uuid = Uuid(bytes: seq<byte>)

  predicate Valid(u: Uuid)
  {
    |u.bytes| == UuidLength
  }

  const IncompleteMessage := "Uuid was ended incompletely"

  /** `serialize`: `serialize_u128(self.0.as_u128())`. */
  function Serialize(u: Uuid): (n: nat)
    requires Valid(u)
    ensures n < Pow256(UuidLength)
    ensures ToBigEndian(n, UuidLength) == u.bytes
  {
    ToFromBigEndian(u.bytes);
    FromBigEndian(u.bytes)
  }

  /** What `visit_seq` computes: the first sixteen elements, in order, or a failure if there are fewer. */
  function Visit(input: seq<byte>): Result<(Uuid, seq<byte>), DeError>
  {
    if |input| < UuidLength then Err(Custom(IncompleteMessage))
    else Ok((Uuid(input[..UuidLength]), input[UuidLength..]))
  }

  /** `UuidVisitor::visit_seq`: fills `out[i]` from the i-th element read. */
  method VisitSeq(input: seq<byte>) returns (r: Result<(Uuid, seq<byte>), DeError>)
    ensures r == Visit(input)
    ensures r.Ok? ==> Valid(r.value.0)
  {
    var out := new byte[UuidLength];
    var pending := input;
    for i := 0 to UuidLength
      invariant i <= |input| && pending == input[i..]
      invariant forall j :: 0 <= j < i ==> out[j] == input[j]
    {
      match NextByte(pending)
      case None =>
        return Err(Custom(IncompleteMessage));
      case Some((b, next)) =>
        out[i] := b;
        pending := next;
    }
    assert out[..] == input[..UuidLength];
    return Ok((Uuid(out[..]), pending));
  }

  /**
   * Reading back the sixteen big-endian bytes of the serialized integer gives
   * the same UUID, and consumes exactly those sixteen bytes.
   */
  lemma VisitSerialize(u: Uuid, rest: seq<byte>)
    requires Valid(u)
    ensures Visit(ToBigEndian(Serialize(u), UuidLength) + rest) == Ok((u, rest))
  {
    var s := ToBigEndian(Serialize(u), UuidLength) + rest;
    assert s[..UuidLength] == u.bytes && s[UuidLength..] == rest;
  }

  /** The integer of a visited UUID is the big-endian value of the first sixteen elements. */
  lemma SerializeVisit(n: nat, rest: seq<byte>)
    requires n < Pow256(UuidLength)
    ensures Visit(ToBigEndian(n, UuidLength) + rest).Ok?
    ensures Serialize(Visit(ToBigEndian(n, UuidLength) + rest).value.0) == n
  {
    var s := ToBigEndian(n, UuidLength) + rest;
    assert s[..UuidLength] == ToBigEndian(n, UuidLength);
    FromToBigEndian(n, UuidLength);
  }
}
