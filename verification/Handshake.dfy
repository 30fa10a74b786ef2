/**
 * The handshake packet: protocol version, server host name (at most 255
 * bytes), port and the client's intent, in that order on the wire.
 */
module Handshake {
  import opened Bytes
  import opened Wrappers
  import opened ByteBuf
  import VarInt

  const MaxHostNameLength: nat := 255

  /** `ClientIntent`, with the protocol's numbering (1 status, 2 login, 3 transfer). */
  datatype ClientIntent = Status | Login | Transfer

  function IntentValue(intent: ClientIntent): int
  {
    match intent
    case Status => 1
    case Login => 2
    case Transfer => 3
  }

  /** `ClientIntent::try_from(VarInt)`: only the three numbers above convert. */
  function IntentFrom(v: int): (r: Option<ClientIntent>)
    ensures r.Some? <==> 1 <= v <= 3
    ensures r.Some? ==> IntentValue(r.value) == v
  {
    if v == 1 then Some(Status)
    else if v == 2 then Some(Login)
    else if v == 3 then Some(Transfer)
    else None
  }

  datatype HandShake = HandShake(protocolVersion: int, hostName: seq<byte>, port: nat, intention: ClientIntent)

  /** The field ranges the Rust types give (`VarInt`, `u16`) and the bound `write` enforces. */
  predicate Writable(h: HandShake)
  {
    IsI32(h.protocolVersion) && |h.hostName| <= MaxHostNameLength && h.port < 0x1_0000
  }

  /** `HandShake::new`: wraps the version in a VarInt and keeps the other fields as given. */
  function New(protocolVersion: int, hostName: seq<byte>, port: nat, intention: ClientIntent): (h: HandShake)
    requires IsI32(protocolVersion) && port < 0x1_0000
    ensures h.protocolVersion == protocolVersion && h.hostName == hostName
    ensures h.port == port && h.intention == intention
    ensures |hostName| <= MaxHostNameLength ==> Writable(h)
  {
    HandShake(protocolVersion, hostName, port, intention)
  }

  /** `read`: the four fields in order; an intent number that does not convert fails. */
  function Read(s: seq<byte>): (r: Read<HandShake>)
    ensures r.Ok? ==> Writable(r.value.0)
  {
    var (version, afterVersion) :- TryGetVarInt(s);
    var (host, afterHost) :- TryGetStringLen(afterVersion, MaxHostNameLength);
    var (port, afterPort) :- TryGetU16(afterHost);
    var (intent, rest) :- TryGetVarInt(afterPort);
    match IntentFrom(intent)
    case None => Err(Message("Invalid Intent"))
    case Some(intention) => Ok((HandShake(version, host, port, intention), rest))
  }

  /**
   * `write`: the same four fields in the same order: the version VarInt, the
   * host name's VarInt length and bytes, the port in two bytes, and the intent
   * in a single byte.
   */
  function Write(h: HandShake): (w: seq<byte>)
    requires Writable(h)
    ensures |w| == VarInt.Size(h.protocolVersion) + VarInt.Size(|h.hostName|) + |h.hostName| + 2 + 1
    ensures w[..VarInt.Size(h.protocolVersion)] == VarInt.Encode(h.protocolVersion)
    ensures w[VarInt.Size(h.protocolVersion)..|w| - 3] == VarInt.Encode(|h.hostName|) + h.hostName
    ensures w[|w| - 3..|w| - 1] == ToBigEndian(h.port, 2)
    ensures w[|w| - 1] == IntentValue(h.intention)
  {
    PutVarInt(h.protocolVersion)
    + PutStringLen(h.hostName, MaxHostNameLength)
    + PutU16(h.port)
    + PutVarInt(IntentValue(h.intention))
  }

  /** `read` applied to what `write` emitted reproduces every field and stops at the packet's end. */
  lemma ReadWrite(h: HandShake, rest: seq<byte>)
    requires Writable(h)
    ensures Read(Write(h) + rest) == Ok((h, rest))
  {
    var afterPort := PutVarInt(IntentValue(h.intention)) + rest;
    var afterHost := PutU16(h.port) + afterPort;
    var afterVersion := PutStringLen(h.hostName, MaxHostNameLength) + afterHost;
    assert Write(h) + rest == PutVarInt(h.protocolVersion) + afterVersion;
    VarIntRoundTrip(h.protocolVersion, afterVersion);
    StringRoundTrip(h.hostName, MaxHostNameLength, afterHost);
    U16RoundTrip(h.port, afterPort);
    VarIntRoundTrip(IntentValue(h.intention), rest);
    ReadFields(Write(h) + rest, h.protocolVersion, afterVersion, h.hostName, afterHost,
               h.port, afterPort, IntentValue(h.intention), rest);
    assert IntentFrom(IntentValue(h.intention)) == Some(h.intention) by {
      match h.intention
      case Status =>
      case Login =>
      case Transfer =>
    }
  }

  /** `Read` once each of its four steps is known. */
  lemma ReadFields(s: seq<byte>, version: int, afterVersion: seq<byte>, host: seq<byte>,
                   afterHost: seq<byte>, port: nat, afterPort: seq<byte>, intent: int, rest: seq<byte>)
    requires TryGetVarInt(s) == Ok((version, afterVersion))
    requires TryGetStringLen(afterVersion, MaxHostNameLength) == Ok((host, afterHost))
    requires TryGetU16(afterHost) == Ok((port, afterPort))
    requires TryGetVarInt(afterPort) == Ok((intent, rest))
    ensures Read(s) == match IntentFrom(intent)
                       case None => Err(Message("Invalid Intent"))
                       case Some(i) => Ok((HandShake(version, host, port, i), rest))
  {
  }

  /** A fourth field outside 1..3 fails with "Invalid Intent" even when the first three are sound. */
  lemma ReadInvalidIntent(version: int, host: seq<byte>, port: nat, intent: int, rest: seq<byte>)
    requires IsI32(version) && |host| <= MaxHostNameLength && port < 0x1_0000
    requires IsI32(intent) && !(1 <= intent <= 3)
    ensures Read(PutVarInt(version) + PutStringLen(host, MaxHostNameLength) + PutU16(port)
                 + PutVarInt(intent) + rest) == Err(Message("Invalid Intent"))
  {
    var afterPort := PutVarInt(intent) + rest;
    var afterHost := PutU16(port) + afterPort;
    var afterVersion := PutStringLen(host, MaxHostNameLength) + afterHost;
    var s := PutVarInt(version) + PutStringLen(host, MaxHostNameLength) + PutU16(port) + PutVarInt(intent) + rest;
    assert s == PutVarInt(version) + afterVersion;
    VarIntRoundTrip(version, afterVersion);
    StringRoundTrip(host, MaxHostNameLength, afterHost);
    U16RoundTrip(port, afterPort);
    VarIntRoundTrip(intent, rest);
    ReadFields(s, version, afterVersion, host, afterHost, port, afterPort, intent, rest);
  }

  /** A host name declared longer than 255 bytes is refused before its bytes are read. */
  lemma ReadHostTooLong(version: int, size: int, rest: seq<byte>)
    requires IsI32(version) && IsI32(size) && size > MaxHostNameLength
    ensures Read(PutVarInt(version) + PutVarInt(size) + rest) == Err(TooLarge("string"))
  {
    var s := PutVarInt(version) + PutVarInt(size) + rest;
    assert s == PutVarInt(version) + (PutVarInt(size) + rest);
    VarIntRoundTrip(version, PutVarInt(size) + rest);
    VarIntRoundTrip(size, rest);
  }

  /** Fewer than two bytes after the host name leave the port incomplete. */
  lemma ReadMissingPort(version: int, host: seq<byte>, tail: seq<byte>)
    requires IsI32(version) && |host| <= MaxHostNameLength
    requires |tail| < 2
    ensures Read(PutVarInt(version) + PutStringLen(host, MaxHostNameLength) + tail) == Err(Incomplete("u16"))
  {
    var s := PutVarInt(version) + PutStringLen(host, MaxHostNameLength) + tail;
    assert s == PutVarInt(version) + (PutStringLen(host, MaxHostNameLength) + tail);
    VarIntRoundTrip(version, PutStringLen(host, MaxHostNameLength) + tail);
    StringRoundTrip(host, MaxHostNameLength, tail);
  }
}
