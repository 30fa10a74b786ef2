/**
 * The login cookie-response packet: an identifier, a presence flag and, when
 * present, a payload of at most 5 KiB preceded by its VarInt length.
 */
module CookieResponse {
  import opened Bytes
  import opened Wrappers
  import opened ByteBuf
  import VarInt

  /** `MAX_COOKIE_LENGTH`: the vanilla server accepts at most 5 KiB of payload. */
  const MaxCookieLength: nat := 5120

  datatype CookieResponse = CookieResponse(key: Identifier, payload: Option<seq<byte>>)

  /** What `write` can emit without panicking. */
  predicate Writable(c: CookieResponse)
  {
    && |c.key.text| <= MaxIdentifierLength
    && (c.payload.Some? ==> |c.payload.value| <= MaxCookieLength)
  }

  /**
   * `read`: identifier, flag; with the flag set, a VarInt length and that many
   * bytes, the length checked against `MAX_COOKIE_LENGTH` first. The length is
   * cast `as usize`, so a negative one is refused as too large.
   */
  function Read(s: seq<byte>): (r: Read<CookieResponse>)
    ensures r.Ok? && r.value.0.payload.Some? ==> |r.value.0.payload.value| <= MaxCookieLength
  {
    var (key, afterKey) :- TryGetIdentifier(s);
    var (hasPayload, afterFlag) :- TryGetBool(afterKey);
    if !hasPayload then Ok((CookieResponse(key, None), afterFlag))
    else
      var (length, afterLength) :- TryGetVarInt(afterFlag);
      var (payload, rest) :- TryCopyToBytesLen(afterLength, AsUsize(length), MaxCookieLength);
      Ok((CookieResponse(key, Some(payload)), rest))
  }

  /** `write`: panics on a payload above `MAX_COOKIE_LENGTH`, hence `Writable`. */
  function Write(c: CookieResponse): (w: seq<byte>)
    requires Writable(c)
    ensures var n := |PutIdentifier(c.key)|;
      |w| > n && w[..n] == PutIdentifier(c.key) && w[n] == (if c.payload.Some? then 1 else 0)
    ensures c.payload.None? ==> |w| == |PutIdentifier(c.key)| + 1
    ensures c.payload.Some? ==>
      var p := c.payload.value;
      |w| == |PutIdentifier(c.key)| + 1 + VarInt.Size(|p|) + |p| && w[|w| - |p|..] == p
    ensures c.payload.Some? ==> w[|PutIdentifier(c.key)| + 1..] == VarInt.Encode(|c.payload.value|) + c.payload.value
  {
    PutIdentifier(c.key)
    + match c.payload
      case Some(p) => PutBool(true) + PutVarInt(|p|) + p
      case None => PutBool(false)
  }

  /** With no payload, `write` emits the identifier, then `false`, and nothing else. */
  lemma WriteWithoutPayload(key: Identifier)
    requires |key.text| <= MaxIdentifierLength
    ensures Write(CookieResponse(key, None)) == PutIdentifier(key) + [0]
    ensures |Write(CookieResponse(key, None))| == |PutIdentifier(key)| + 1
  {
  }

  /** A cleared flag ends the packet: nothing after it is read. */
  lemma ReadWithoutPayload(key: Identifier, flag: byte, rest: seq<byte>)
    requires |key.text| <= MaxIdentifierLength
    requires flag == 0
    ensures Read(PutIdentifier(key) + [flag] + rest) == Ok((CookieResponse(key, None), rest))
  {
    var s := PutIdentifier(key) + [flag] + rest;
    assert s == PutIdentifier(key) + ([flag] + rest);
    IdentifierRoundTrip(key, [flag] + rest);
  }

  /** A declared length above 5120, or a negative one, is refused before any payload byte is read. */
  lemma ReadRefusesLongPayload(key: Identifier, length: int, rest: seq<byte>)
    requires |key.text| <= MaxIdentifierLength
    requires IsI32(length) && (length < 0 || length > MaxCookieLength)
    ensures Read(PutIdentifier(key) + PutBool(true) + PutVarInt(length) + rest) == Err(TooLarge("bytes"))
  {
    var s := PutIdentifier(key) + PutBool(true) + PutVarInt(length) + rest;
    assert s == PutIdentifier(key) + (PutBool(true) + (PutVarInt(length) + rest));
    IdentifierRoundTrip(key, PutBool(true) + (PutVarInt(length) + rest));
    BoolRoundTrip(true, PutVarInt(length) + rest);
    VarIntRoundTrip(length, rest);
  }

  /** Input that ends right after the identifier lacks the presence flag. */
  lemma ReadMissingFlag(key: Identifier)
    requires |key.text| <= MaxIdentifierLength
    ensures Read(PutIdentifier(key)) == Err(Incomplete("bool"))
  {
    assert PutIdentifier(key) == PutIdentifier(key) + [];
    IdentifierRoundTrip(key, []);
  }

  /** A declared length within 5120 but beyond the bytes that are left fails as incomplete. */
  lemma ReadTruncatedPayload(key: Identifier, length: int, data: seq<byte>)
    requires |key.text| <= MaxIdentifierLength
    requires 0 <= length <= MaxCookieLength && |data| < length
    ensures Read(PutIdentifier(key) + PutBool(true) + PutVarInt(length) + data) == Err(Incomplete("bytes"))
  {
    var s := PutIdentifier(key) + PutBool(true) + PutVarInt(length) + data;
    assert s == PutIdentifier(key) + (PutBool(true) + (PutVarInt(length) + data));
    IdentifierRoundTrip(key, PutBool(true) + (PutVarInt(length) + data));
    BoolRoundTrip(true, PutVarInt(length) + data);
    VarIntRoundTrip(length, data);
  }

  /** Reading what `write` produced gives back the same key and payload, and stops at its end. */
  lemma ReadWrite(c: CookieResponse, rest: seq<byte>)
    requires Writable(c)
    ensures Read(Write(c) + rest) == Ok((c, rest))
  {
    match c.payload
    case None =>
      assert Write(c) + rest == PutIdentifier(c.key) + ([0] + rest);
      ReadWithoutPayload(c.key, 0, rest);
    case Some(p) =>
      var s := Write(c) + rest;
      assert s == PutIdentifier(c.key) + (PutBool(true) + (PutVarInt(|p|) + (p + rest)));
      IdentifierRoundTrip(c.key, PutBool(true) + (PutVarInt(|p|) + (p + rest)));
      BoolRoundTrip(true, PutVarInt(|p|) + (p + rest));
      VarIntRoundTrip(|p|, p + rest);
      assert (p + rest)[..|p|] == p && (p + rest)[|p|..] == rest;
  }
}
