/**
 * `PacketEncoder` of wither-network/src/packet_encoder.rs: a growing byte
 * buffer of framed packets, an optional AES-128/CFB8 cipher applied when the
 * buffer is taken, and optional zlib compression with a threshold.
 *
 * The buffer is a `seq<byte>` the methods reassign step by step, in the order
 * the source writes it. The compressor and the AES block function are
 * parameters (see `Framing.Zlib` and `Cfb8.Keystream`).
 */
module PacketEncoder {
  import opened Bytes
  import opened Wrappers
  import VarInt
  import Framing
  import Cfb8

  /** `buf.put_bytes(0, n)` appends these. */
  function Zeros(n: nat): (z: seq<byte>)
    ensures |z| == n && forall j :: 0 <= j < n ==> z[j] == 0
  {
    seq(n, _ => 0)
  }

  /** `buf.copy_within(from..to, dest)`: the range is copied as it was before the copy. */
  function CopyWithin(s: seq<byte>, from: nat, to: nat, dest: nat): (r: seq<byte>)
    requires from <= to <= |s| && dest + (to - from) <= |s|
    ensures |r| == |s|
  {
    s[..dest] + s[from..to] + s[dest + (to - from)..]
  }

  /** Encoding into `&mut buf[at..]`: the bytes at `at` are overwritten, the length stays. */
  function Overwrite(s: seq<byte>, at: nat, bytes: seq<byte>): (r: seq<byte>)
    requires at + |bytes| <= |s|
    ensures |r| == |s|
  {
    s[..at] + bytes + s[at + |bytes|..]
  }

  /**
   * Moving the bytes from `start` on up by `|p1| + |p2|` zero bytes and
   * writing the two prefixes into the room freed in front of them inserts
   * the prefixes at `start`.
   */
  lemma MakeRoomForPrefix(s: seq<byte>, start: nat, p1: seq<byte>, p2: seq<byte>)
    requires start <= |s|
    ensures Overwrite(Overwrite(CopyWithin(s + Zeros(|p1| + |p2|), start, |s|, start + |p1| + |p2|),
                                start, p1), start + |p1|, p2)
         == s[..start] + p1 + p2 + s[start..]
  {
    var n := |p1| + |p2|;
    var data := s[start..];
    var s0 := s + Zeros(n);
    assert s0[start..|s|] == data && s0[..start] == s[..start];
    var s1 := CopyWithin(s0, start, |s|, start + n);
    assert s1 == s0[..start + n] + data;
    var s2 := Overwrite(s1, start, p1);
    assert s2[..start + |p1|] == s[..start] + p1;
    assert s2[start + n..] == data;
    var s3 := Overwrite(s2, start + |p1|, p2);
    assert s3 == s2[..start + |p1|] + p2 + s2[start + n..];
  }

  lemma FrameAfter(before: seq<byte>, a: seq<byte>, b: seq<byte>, c: seq<byte>)
    ensures before + a + b + c == before + (a + b + c)
  {
  }

  datatype CompressionLevelError = CompressionLevelError

  /** `CompressionLvl::new`: libdeflate accepts levels 0 to 12. */
  predicate ValidLevel(level: int)
  {
    0 <= level <= 12
  }

  class PacketEncoder {
    var buf: seq<byte>
    var cipher: Option<Cfb8.State>
    var compression: Option<Framing.Compression>

    predicate Valid()
      reads this
    {
      cipher.Some? ==> Cfb8.Valid(cipher.value)
    }

    /** `PacketEncoder::default()`: empty buffer, no cipher, no compression. */
    constructor ()
      ensures Valid()
      ensures buf == [] && cipher == None && compression == None
    {
      buf := [];
      cipher := None;
      compression := None;
    }

    /**
     * The in-place shift both uncompressed branches do: `put_bytes(0, n)`,
     * `copy_within` to move the data up by `n`, then the length prefixes
     * encoded into the front of the freed room.
     */
    method InsertPrefix(start: nat, p1: seq<byte>, p2: seq<byte>)
      requires start <= |buf|
      modifies this`buf
      ensures buf == old(buf)[..start] + p1 + p2 + old(buf)[start..]
    {
      var end := |buf|;
      buf := buf + Zeros(|p1| + |p2|);
      buf := CopyWithin(buf, start, end, start + |p1| + |p2|);
      buf := Overwrite(buf, start, p1);
      buf := Overwrite(buf, start + |p1|, p2);
      MakeRoomForPrefix(old(buf), start, p1, p2);
    }

    /**
     * `append_packet`: writes the packet ID and the body at the end of the
     * buffer, then frames them in place. The outcome and the new buffer are
     * those of `Framing.Append`, errors included.
     */
    method AppendPacket(id: int, body: seq<byte>, zlib: Framing.Zlib) returns (r: Result<(), Framing.EncodeError>)
      requires IsI32(id)
      modifies this`buf
      ensures (r, buf) == Framing.Append(old(buf), compression, id, body, zlib)
    {
      var start := |buf|;
      buf := buf + VarInt.Encode(id);
      buf := buf + body;
      var dataLen := |buf| - start;
      ghost var data := Framing.PacketData(id, body);
      assert buf == old(buf) + data && dataLen == |data|;

      if compression.Some? {
        if dataLen > compression.value.threshold {
          var toCompress := buf[start..];
          assert toCompress == data;
          var compressed: seq<byte>;
          match zlib(compression.value.level, toCompress) {
            case Err(msg) =>
              assert Framing.Append(old(buf), compression, id, body, zlib)
                  == (Err(Framing.CompressionFailed(msg)), old(buf) + data);
              return Err(Framing.CompressionFailed(msg));
            case Ok(z) =>
              compressed := z;
          }
          var dataLenSize := VarInt.Size(AsI32(dataLen));
          var packetLen := dataLenSize + |compressed|;
          if packetLen >= Framing.MaxPacketSize {
            assert Framing.Append(old(buf), compression, id, body, zlib)
                == (Err(Framing.TooLong(packetLen)), old(buf) + data);
            return Err(Framing.TooLong(packetLen));
          }
          assert buf[..start] == old(buf);
          buf := buf[..start];
          buf := buf + VarInt.Encode(packetLen);
          buf := buf + VarInt.Encode(AsI32(dataLen));
          buf := buf + compressed;
          FrameAfter(old(buf), VarInt.Encode(packetLen), VarInt.Encode(AsI32(dataLen)), compressed);
          assert buf == old(buf) + Framing.DeflatedFrame(dataLen, compressed);
          assert Framing.Append(old(buf), compression, id, body, zlib) == (Ok(()), buf);
        } else {
          var dataLenSize := 1;
          var packetLen := dataLenSize + dataLen;
          if packetLen >= Framing.MaxPacketSize {
            assert Framing.Append(old(buf), compression, id, body, zlib)
                == (Err(Framing.TooLong(packetLen)), old(buf) + data);
            return Err(Framing.TooLong(packetLen));
          }
          assert VarInt.Encode(0) == [0];
          assert buf[..start] == old(buf) && buf[start..] == data;
          InsertPrefix(start, VarInt.Encode(packetLen), VarInt.Encode(0));
          FrameAfter(old(buf), VarInt.Encode(packetLen), VarInt.Encode(0), data);
          assert buf == old(buf) + Framing.ShortFrame(data);
          assert Framing.Append(old(buf), compression, id, body, zlib) == (Ok(()), buf);
        }
        return Ok(());
      }

      var packetLen := dataLen;
      if packetLen >= Framing.MaxPacketSize {
        return Err(Framing.TooLong(packetLen));
      }
      assert buf[..start] == old(buf) && buf[start..] == data;
      InsertPrefix(start, VarInt.Encode(packetLen), []);
      FrameAfter(old(buf), VarInt.Encode(packetLen), [], data);
      assert buf == old(buf) + Framing.PlainFrame(data);
      r := Ok(());
    }

    /**
     * `append_packet` with the buffer cut back to where it started when
     * framing fails: an error leaves the buffer as it was.
     */
    method AppendPacketAtomic(id: int, body: seq<byte>, zlib: Framing.Zlib) returns (r: Result<(), Framing.EncodeError>)
      requires IsI32(id)
      modifies this`buf
      ensures (r, buf) == Framing.AppendAtomic(old(buf), compression, id, body, zlib)
    {
      var start := |buf|;
      r := AppendPacket(id, body, zlib);
      if r.Err? {
        buf := buf[..start];
      }
    }

    /**
     * `set_encryption`: `Some(key)` starts AES-128/CFB8 with the key as both
     * key and IV and requires that no cipher is running; `None` stops it and
     * requires that one is (the source asserts both).
     */
    method SetEncryption(key: Option<seq<byte>>)
      requires key.Some? ==> cipher.None? && |key.value| == Cfb8.BlockLength
      requires key.None? ==> cipher.Some?
      modifies this`cipher
      ensures Valid()
      ensures key.Some? ==> cipher == Some(Cfb8.New(key.value, key.value))
      ensures key.None? ==> cipher == None
    {
      if key.Some? {
        cipher := Some(Cfb8.New(key.value, key.value));
      } else {
        cipher := None;
      }
    }

    /**
     * `set_compression`: `Some((threshold, level))` turns compression on
     * when the level, read as an `i32`, is one libdeflate accepts, and fails
     * leaving the setting alone otherwise; `None` turns it off.
     */
    method SetCompression(setting: Option<(nat, nat)>) returns (r: Result<(), CompressionLevelError>)
      requires setting.Some? ==> IsU32(setting.value.0) && IsU32(setting.value.1)
      modifies this`compression
      ensures setting.None? ==> r.Ok? && compression.None?
      ensures setting.Some? ==> (r.Ok? <==> ValidLevel(AsI32(setting.value.1)))
      ensures setting.Some? && r.Ok? ==>
        compression == Some(Framing.Compression(AsI32(setting.value.1), setting.value.0))
      ensures r.Err? ==> compression == old(compression)
    {
      match setting {
        case Some((threshold, level)) =>
          var lvl := AsI32(level);
          if !ValidLevel(lvl) {
            return Err(CompressionLevelError);
          }
          compression := Some(Framing.Compression(lvl, threshold));
        case None =>
          compression := None;
      }
      r := Ok(());
    }

    /**
     * `take`: with a cipher, every byte of the buffer is encrypted in place,
     * one CFB8 block (one byte) at a time, the cipher state carrying over;
     * then the whole buffer is handed out and the encoder's buffer is empty.
     */
    method Take(ks: Cfb8.Keystream) returns (out: seq<byte>)
      requires Valid()
      modifies this`buf, this`cipher
      ensures Valid() && buf == []
      ensures old(cipher).None? ==> out == old(buf) && cipher == None
      ensures old(cipher).Some? ==>
        var e := Cfb8.Encrypt(ks, old(cipher).value, old(buf));
        out == e.1 && cipher == Some(e.0)
    {
      if cipher.Some? {
        var st := cipher.value;
        ghost var st0 := st;
        ghost var plain := buf;
        var i := 0;
        while i < |buf|
          invariant 0 <= i <= |buf| == |plain| && Cfb8.Valid(st)
          invariant buf[i..] == plain[i..]
          invariant (st, buf[..i]) == Cfb8.Encrypt(ks, st0, plain[..i])
        {
          assert plain[..i + 1][..i] == plain[..i];
          var step := Cfb8.EncryptByte(ks, st, buf[i]);
          buf := buf[i := step.1];
          st := step.0;
          i := i + 1;
          assert buf[..i] == buf[..i - 1] + [step.1];
        }
        assert buf == buf[..i] && plain == plain[..i];
        cipher := Some(st);
      }
      out := buf;
      buf := [];
    }
  }
}
