/**
 * serde's sequence access, as the protocol's deserializer offers it: the
 * visitors pull elements one at a time from the bytes that are left, and
 * `next_element` answers `None` once they are exhausted. The deserializer
 * itself is not part of this model; a `u8` element is one byte and a `VarInt`
 * element is one VarInt.
 */
module SeqAccess {
  import opened Bytes
  import opened Wrappers
  import VarInt

  datatype DeError =
    | Custom(msg: string)                  // `serde::de::Error::custom` raised by a visitor
    | VarIntElement(e: VarInt.DecodeError) // a malformed VarInt element

  /** What a serializer was handed: the declared sequence length and the bytes emitted. */
  datatype Serialized = Serialized(declaredLen: nat, bytes: seq<byte>)

  /** `next_element::<u8>()`. */
  function NextByte(s: seq<byte>): (r: Option<(byte, seq<byte>)>)
    ensures r.None? <==> s == []
    ensures r.Some? ==> r.value.0 == s[0] && r.value.1 == s[1..]
  {
    if s == [] then None else Some((s[0], s[1..]))
  }

  /** `next_element::<VarInt>()`. */
  function NextVarInt(s: seq<byte>): Result<Option<(int, seq<byte>)>, DeError>
  {
    if s == [] then Ok(None)
    else match VarInt.Decode(s)
      case Ok(vr) => Ok(Some(vr))
      case Err(e) => Err(VarIntElement(e))
  }

  /** `for _ in 0..count` runs this many times: none for a non-positive count. */
  function Iterations(count: int): nat
  {
    if count > 0 then count else 0
  }

  lemma NextVarIntEncode(v: int, rest: seq<byte>)
    requires IsI32(v)
    ensures NextVarInt(VarInt.Encode(v) + rest) == Ok(Some((v, rest)))
  {
    VarInt.DecodeEncode(v, rest);
  }
}
