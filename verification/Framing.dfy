/**
 * The frame layout `PacketEncoder::append_packet` produces, as functions of
 * the buffer before the call. Packet data is the packet-ID VarInt followed by
 * the body `packet.write` appends. Without compression a frame is
 * VarInt(length) and the data; with compression it is VarInt(length),
 * VarInt(data length) and the data, compressed when it is longer than the
 * threshold, with data length 0 when it is not.
 *
 * zlib (RFC 1950, through libdeflate) is a parameter: the compressor's output
 * at a given level, or its failure message.
 */
module Framing {
  import opened Bytes
  import opened Wrappers
  import VarInt

  /** `MAX_PACKET_SIZE`: 2 MiB, the most a three-byte VarInt length can announce plus one. */
  const MaxPacketSize: nat := 2097152

  datatype EncodeError = TooLong(len: nat) | CompressionFailed(msg: string)

  /** The compressor's level and the `CompressionThreshold` (a `u32`). */
  datatype Compression = Compression(level: int, threshold: nat)

  /** `compressor.zlib_compress(data, ...)` at a level. */
  type Zlib = (int, seq<byte>) -> Result<seq<byte>, string>

  function PacketData(id: int, body: seq<byte>): seq<byte>
    requires IsI32(id)
  {
    VarInt.Encode(id) + body
  }

  /** Compression is on and the data is longer than the threshold. */
  predicate Compresses(compression: Option<Compression>, dataLen: nat)
  {
    compression.Some? && dataLen > compression.value.threshold
  }

  /** Compression off: VarInt(length), then the data. */
  function PlainFrame(data: seq<byte>): seq<byte>
    requires |data| < MaxPacketSize
  {
    VarInt.Encode(|data|) + data
  }

  /** Compression on, data at or below the threshold: VarInt(1 + length), VarInt(0), the data. */
  function ShortFrame(data: seq<byte>): seq<byte>
    requires 1 + |data| < MaxPacketSize
  {
    VarInt.Encode(1 + |data|) + VarInt.Encode(0) + data
  }

  /** Compression on, data above the threshold: VarInt(length), VarInt(data length), zlib output. */
  function DeflatedFrame(dataLen: nat, compressed: seq<byte>): seq<byte>
    requires VarInt.Size(AsI32(dataLen)) + |compressed| < MaxPacketSize
  {
    VarInt.Encode(VarInt.Size(AsI32(dataLen)) + |compressed|) + VarInt.Encode(AsI32(dataLen)) + compressed
  }

  /**
   * `append_packet` as written: the outcome and the new buffer. On every error
   * the packet ID and body stay appended to the buffer.
   */
  function Append(buf: seq<byte>, compression: Option<Compression>, id: int, body: seq<byte>, zlib: Zlib)
    : (r: (Result<(), EncodeError>, seq<byte>))
    requires IsI32(id)
    ensures |r.1| >= |buf| && r.1[..|buf|] == buf
    ensures r.0.Err? ==> r.1 == buf + PacketData(id, body)
  {
    var data := PacketData(id, body);
    var dataLen := |data|;
    match compression
    case None =>
      if dataLen >= MaxPacketSize then (Err(TooLong(dataLen)), buf + data)
      else (Ok(()), buf + PlainFrame(data))
    case Some(c) =>
      if dataLen > c.threshold then
        match zlib(c.level, data)
        case Err(msg) => (Err(CompressionFailed(msg)), buf + data)
        case Ok(z) =>
          var packetLen := VarInt.Size(AsI32(dataLen)) + |z|;
          if packetLen >= MaxPacketSize then (Err(TooLong(packetLen)), buf + data)
          else (Ok(()), buf + DeflatedFrame(dataLen, z))
      else
        var packetLen := 1 + dataLen;
        if packetLen >= MaxPacketSize then (Err(TooLong(packetLen)), buf + data)
        else (Ok(()), buf + ShortFrame(data))
  }

  /**
   * When `append_packet` fails: a packet length of 2 MiB or more (the data
   * length without compression, one more with compression under the
   * threshold, the data-length VarInt plus the zlib output above it), or the
   * compressor's failure.
   */
  lemma AppendErrors(buf: seq<byte>, compression: Option<Compression>, id: int, body: seq<byte>, zlib: Zlib)
    requires IsI32(id)
    ensures var r := Append(buf, compression, id, body, zlib).0;
      var data := PacketData(id, body);
      (r.Err? && r.error.TooLong? ==> r.error.len >= MaxPacketSize) &&
      (compression.None? ==>
        (r == Err(TooLong(|data|)) <==> |data| >= MaxPacketSize) &&
        (r.Ok? <==> |data| < MaxPacketSize)) &&
      (compression.Some? && !Compresses(compression, |data|) ==>
        (r == Err(TooLong(1 + |data|)) <==> 1 + |data| >= MaxPacketSize) &&
        (r.Ok? <==> 1 + |data| < MaxPacketSize)) &&
      (Compresses(compression, |data|) ==>
        match zlib(compression.value.level, data)
        case Err(msg) => r == Err(CompressionFailed(msg))
        case Ok(z) =>
          var len := VarInt.Size(AsI32(|data|)) + |z|;
          (r == Err(TooLong(len)) <==> len >= MaxPacketSize) &&
          (r.Ok? <==> len < MaxPacketSize))
  {
  }

  /**
   * `append_packet` as evidently intended: on error the buffer is cut back
   * to where it was, so it never holds a packet that was not framed.
   */
  function AppendAtomic(buf: seq<byte>, compression: Option<Compression>, id: int, body: seq<byte>, zlib: Zlib)
    : (r: (Result<(), EncodeError>, seq<byte>))
    requires IsI32(id)
    ensures r.0 == Append(buf, compression, id, body, zlib).0
    ensures r.0.Err? ==> r.1 == buf
    ensures r.0.Ok? ==> r.1 == Append(buf, compression, id, body, zlib).1
  {
    var a := Append(buf, compression, id, body, zlib);
    if a.0.Err? then (a.0, buf) else a
  }

  /** What a frame carries once its length prefixes are read. */
  datatype FrameContent = Raw(data: seq<byte>) | Deflated(dataLen: int, compressed: seq<byte>)

  datatype FrameError = BadLength | Truncated | BadDataLength

  /**
   * A reader for the frames above (the receiving side's view): the length,
   * exactly that many bytes, and with compression on, the data length that
   * tells a plain packet (0) from a compressed one.
   */
  function ReadFrame(s: seq<byte>, compressionOn: bool): Result<(FrameContent, seq<byte>), FrameError>
  {
    match VarInt.Decode(s)
    case Err(_) => Err(BadLength)
    case Ok((n, rest)) =>
      if n < 0 then Err(BadLength)
      else if |rest| < n then Err(Truncated)
      else if !compressionOn then Ok((Raw(rest[..n]), rest[n..]))
      else match VarInt.Decode(rest[..n])
        case Err(_) => Err(BadDataLength)
        case Ok((dataLen, payload)) =>
          if dataLen == 0 then Ok((Raw(payload), rest[n..]))
          else Ok((Deflated(dataLen, payload), rest[n..]))
  }

  /** A plain frame is its length and then exactly that many bytes: the packet data. */
  lemma ReadPlainFrame(data: seq<byte>, rest: seq<byte>)
    requires |data| < MaxPacketSize
    ensures ReadFrame(PlainFrame(data) + rest, false) == Ok((Raw(data), rest))
  {
    assert PlainFrame(data) + rest == VarInt.Encode(|data|) + (data + rest);
    VarInt.DecodeEncode(|data|, data + rest);
    assert (data + rest)[..|data|] == data && (data + rest)[|data|..] == rest;
  }

  /** A frame below the threshold announces 1 + length, carries data length 0, then the data itself. */
  lemma ReadShortFrame(data: seq<byte>, rest: seq<byte>)
    requires 1 + |data| < MaxPacketSize
    ensures VarInt.Encode(0) == [0]
    ensures ReadFrame(ShortFrame(data) + rest, true) == Ok((Raw(data), rest))
  {
    var inner := VarInt.Encode(0) + data;
    assert VarInt.Encode(0) == [0];
    assert ShortFrame(data) + rest == VarInt.Encode(1 + |data|) + (inner + rest);
    VarInt.DecodeEncode(1 + |data|, inner + rest);
    assert (inner + rest)[..1 + |data|] == inner && (inner + rest)[1 + |data|..] == rest;
    VarInt.DecodeEncode(0, data);
  }

  /** A compressed frame announces the size of the data-length VarInt plus the zlib output, and carries both. */
  lemma ReadDeflatedFrame(dataLen: nat, compressed: seq<byte>, rest: seq<byte>)
    requires 0 < dataLen < TwoTo31
    requires VarInt.Size(dataLen) + |compressed| < MaxPacketSize
    ensures ReadFrame(DeflatedFrame(dataLen, compressed) + rest, true) == Ok((Deflated(dataLen, compressed), rest))
  {
    var inner := VarInt.Encode(dataLen) + compressed;
    var n := VarInt.Size(dataLen) + |compressed|;
    assert |inner| == n;
    assert DeflatedFrame(dataLen, compressed) + rest == VarInt.Encode(n) + (inner + rest);
    VarInt.DecodeEncode(n, inner + rest);
    assert (inner + rest)[..n] == inner && (inner + rest)[n..] == rest;
    VarInt.DecodeEncode(dataLen, compressed);
    assert compressed + [] == compressed;
  }

  /** The frame a successful append adds: the packet data itself, or the compressor's output for it. */
  function Content(compression: Option<Compression>, data: seq<byte>, zlib: Zlib): FrameContent
  {
    if Compresses(compression, |data|) && zlib(compression.value.level, data).Ok?
    then Deflated(|data|, zlib(compression.value.level, data).value)
    else Raw(data)
  }

  /**
   * After a successful append, the bytes from the old end of the buffer on
   * are exactly one frame, and it reads back as the packet.
   */
  lemma AppendedFrameReadsBack(buf: seq<byte>, compression: Option<Compression>, id: int, body: seq<byte>, zlib: Zlib)
    requires IsI32(id)
    requires Append(buf, compression, id, body, zlib).0.Ok?
    requires |PacketData(id, body)| < TwoTo31
    ensures ReadFrame(Append(buf, compression, id, body, zlib).1[|buf|..], compression.Some?)
         == Ok((Content(compression, PacketData(id, body), zlib), []))
  {
    var data := PacketData(id, body);
    var after := Append(buf, compression, id, body, zlib).1;
    match compression
    case None =>
      assert after[|buf|..] == PlainFrame(data) + [];
      ReadPlainFrame(data, []);
    case Some(c) =>
      if |data| > c.threshold {
        var z := zlib(c.level, data).value;
        assert after[|buf|..] == DeflatedFrame(|data|, z) + [];
        ReadDeflatedFrame(|data|, z, []);
      } else {
        assert after[|buf|..] == ShortFrame(data) + [];
        ReadShortFrame(data, []);
      }
  }

  /** A buffer that reads as whole frames, one after the other, to its end. */
  predicate Framed(s: seq<byte>, compressionOn: bool)
    decreases |s|
  {
    s == [] ||
    (ReadFrame(s, compressionOn).Ok? &&
     var rest := ReadFrame(s, compressionOn).value.1;
     |rest| < |s| && Framed(rest, compressionOn))
  }

  /** Bytes after a complete frame do not change it; they stay in the rest. */
  lemma ReadFrameAppend(s: seq<byte>, t: seq<byte>, compressionOn: bool)
    requires ReadFrame(s, compressionOn).Ok?
    ensures ReadFrame(s + t, compressionOn)
         == Ok((ReadFrame(s, compressionOn).value.0, ReadFrame(s, compressionOn).value.1 + t))
  {
    VarInt.DecodeFromAppend(s, t, 0, 0);
    var rest := VarInt.Decode(s).value.1;
    var n := VarInt.Decode(s).value.0;
    assert (rest + t)[..n] == rest[..n] && (rest + t)[n..] == rest[n..] + t;
  }

  /** Whole frames followed by whole frames are whole frames. */
  lemma {:induction false} FramedConcat(s: seq<byte>, f: seq<byte>, compressionOn: bool)
    requires Framed(s, compressionOn) && Framed(f, compressionOn)
    ensures Framed(s + f, compressionOn)
    decreases |s|
  {
    if s == [] {
      assert s + f == f;
    } else {
      var rest := ReadFrame(s, compressionOn).value.1;
      ReadFrameAppend(s, f, compressionOn);
      FramedConcat(rest, f, compressionOn);
    }
  }

  /**
   * With the buffer cut back on error, a buffer of whole frames stays one,
   * whatever the outcome of the append.
   */
  lemma AppendAtomicKeepsFramed(buf: seq<byte>, compression: Option<Compression>, id: int, body: seq<byte>, zlib: Zlib)
    requires IsI32(id) && |PacketData(id, body)| < TwoTo31
    requires Framed(buf, compression.Some?)
    ensures Framed(AppendAtomic(buf, compression, id, body, zlib).1, compression.Some?)
  {
    var r := AppendAtomic(buf, compression, id, body, zlib);
    if r.0.Ok? {
      var frame := r.1[|buf|..];
      AppendedFrameReadsBack(buf, compression, id, body, zlib);
      assert Framed([], compression.Some?);
      assert Framed(frame, compression.Some?);
      FramedConcat(buf, frame, compression.Some?);
      assert buf + frame == r.1;
    }
  }

  /**
   * As written, a packet that is too long leaves its ID and body behind:
   * here an empty buffer becomes a zero byte, which reads as an empty frame,
   * followed by 2 MiB of 0xFF bytes that no frame can start with.
   */
  lemma AppendErrorLeavesUnframedBytes(zlib: Zlib)
    ensures
      var body := seq(MaxPacketSize - 1, _ => 255);
      var r := Append([], None, 0, body, zlib);
      r.0 == Err(TooLong(MaxPacketSize)) && r.1 == [0] + body &&
      ReadFrame(r.1, false) == Ok((Raw([]), body)) &&
      !Framed(r.1, false)
  {
    var body := seq(MaxPacketSize - 1, _ => 255);
    assert VarInt.Encode(0) == [0];
    assert [0] + body == VarInt.Encode(0) + body;
    VarInt.DecodeEncode(0, body);
    assert body[..0] == [] && body[0..] == body;
    VarInt.DecodeTooLarge(body, 0, 0);
    assert ReadFrame(body, false) == Err(BadLength);
  }
}
