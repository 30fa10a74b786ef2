/**
 * The `ByteBuf` / `ByteBufMut` helpers the packets use (`try_get_*` consume from
 * the front of a buffer, `put_*` append to one). Their module is not part of
 * this model; they are given the protocol's usual layouts:
 * bool as one byte, u16 big-endian, strings and byte payloads as a VarInt
 * length followed by the bytes. A string is kept as its UTF-8 bytes; the UTF-8
 * check of the reader is not modelled.
 *
 * Readers take the remaining input and return the value with what is left;
 * writers return the bytes they append.
 */
module ByteBuf {
  import opened Bytes
  import opened Wrappers
  import VarInt

  datatype ReadingError =
    | Incomplete(field: string)
    | TooLarge(field: string)
    | Message(text: string)

  type Read<T> = Result<(T, seq<byte>), ReadingError>

  /** The longest string an identifier may be. */
  const MaxIdentifierLength: nat := 32767

  /** An identifier as it travels: its `namespace:path` text. */
  datatype Identifier = Identifier(text: seq<byte>)

  function PutVarInt(v: int): seq<byte>
    requires IsI32(v)
  {
    VarInt.Encode(v)
  }

  function TryGetVarInt(s: seq<byte>): Read<int>
  {
    match VarInt.Decode(s)
    case Ok(vr) => Ok(vr)
    case Err(e) => if e.TooLarge? then Err(TooLarge("varint")) else Err(Incomplete("varint"))
  }

  function PutBool(b: bool): seq<byte>
  {
    [if b then 1 else 0]
  }

  function TryGetBool(s: seq<byte>): Read<bool>
  {
    if s == [] then Err(Incomplete("bool")) else Ok((s[0] != 0, s[1..]))
  }

  function PutU16(n: nat): seq<byte>
    requires n < 0x1_0000
  {
    ToBigEndian(n, 2)
  }

  function TryGetU16(s: seq<byte>): Read<nat>
  {
    if |s| < 2 then Err(Incomplete("u16")) else Ok((FromBigEndian(s[..2]), s[2..]))
  }

  function TryCopyToBytes(s: seq<byte>, len: nat): Read<seq<byte>>
  {
    if |s| < len then Err(Incomplete("bytes")) else Ok((s[..len], s[len..]))
  }

  /** Refuses a length above `max` before looking at the input. */
  function TryCopyToBytesLen(s: seq<byte>, len: nat, max: nat): Read<seq<byte>>
  {
    if len > max then Err(TooLarge("bytes")) else TryCopyToBytes(s, len)
  }

  /** Panics on a string longer than `max`, hence the precondition. */
  function PutStringLen(text: seq<byte>, max: nat): seq<byte>
    requires |text| <= max && |text| < TwoTo31
  {
    PutVarInt(|text|) + text
  }

  function TryGetStringLen(s: seq<byte>, max: nat): Read<seq<byte>>
  {
    var (size, rest) :- TryGetVarInt(s);
    if AsUsize(size) > max then Err(TooLarge("string"))
    else TryCopyToBytes(rest, AsUsize(size))
  }

  function PutIdentifier(id: Identifier): seq<byte>
    requires |id.text| <= MaxIdentifierLength
  {
    PutStringLen(id.text, MaxIdentifierLength)
  }

  function TryGetIdentifier(s: seq<byte>): Read<Identifier>
  {
    var (text, rest) :- TryGetStringLen(s, MaxIdentifierLength);
    Ok((Identifier(text), rest))
  }

  lemma VarIntRoundTrip(v: int, rest: seq<byte>)
    requires IsI32(v)
    ensures TryGetVarInt(PutVarInt(v) + rest) == Ok((v, rest))
  {
    VarInt.DecodeEncode(v, rest);
  }

  lemma BoolRoundTrip(b: bool, rest: seq<byte>)
    ensures TryGetBool(PutBool(b) + rest) == Ok((b, rest))
  {
    assert (PutBool(b) + rest)[1..] == rest;
  }

  lemma U16RoundTrip(n: nat, rest: seq<byte>)
    requires n < 0x1_0000
    ensures TryGetU16(PutU16(n) + rest) == Ok((n, rest))
  {
    var s := PutU16(n) + rest;
    assert s[..2] == PutU16(n) && s[2..] == rest;
    FromToBigEndian(n, 2);
  }

  lemma StringRoundTrip(text: seq<byte>, max: nat, rest: seq<byte>)
    requires |text| <= max && |text| < TwoTo31
    ensures TryGetStringLen(PutStringLen(text, max) + rest, max) == Ok((text, rest))
  {
    var s := PutStringLen(text, max) + rest;
    assert s == PutVarInt(|text|) + (text + rest);
    VarIntRoundTrip(|text|, text + rest);
    assert (text + rest)[..|text|] == text && (text + rest)[|text|..] == rest;
  }

  lemma IdentifierRoundTrip(id: Identifier, rest: seq<byte>)
    requires |id.text| <= MaxIdentifierLength
    ensures TryGetIdentifier(PutIdentifier(id) + rest) == Ok((id, rest))
  {
    StringRoundTrip(id.text, MaxIdentifierLength, rest);
  }
}
