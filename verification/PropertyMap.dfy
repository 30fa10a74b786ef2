/**
 * `PropertyMap` of wither-network/src/types/property.rs: the profile
 * properties of a player, serialized as a VarInt count followed by each
 * property, and read back the same way. `PropertyMap::new` is the datatype
 * constructor: it keeps the vector as it is.
 *
 * A `Property` element is written and read by derived serde code whose byte
 * layout comes from a serializer outside this model, so both directions are
 * parameters here; `Mirrors` is what the round trip needs of them.
 */
module PropertyMap {
  import opened Bytes
  import opened Wrappers
  import opened SeqAccess
  import VarInt

  /** Name, base64 value and optional base64 signature, each kept as its UTF-8 bytes. */
  datatype Property = Property(name: seq<byte>, value: seq<byte>, signature: Option<seq<byte>>)

  datatype PropertyMap = PropertyMap(inner: seq<Property>)

  /** `seq.serialize_element(&property)`. */
  type ElementWriter = Property -> seq<byte>

  /** `seq.next_element::<Property>()`. */
  type ElementReader = seq<byte> -> Result<Option<(Property, seq<byte>)>, DeError>

  /** The element reader gives back every property the writer wrote, and stops at its end. */
  ghost predicate Mirrors(read: ElementReader, write: ElementWriter)
  {
    forall p, rest :: read(write(p) + rest) == Ok(Some((p, rest)))
  }

  const InvalidVarIntMessage := "invalid varint"
  const IncompleteMessage := "Binary was ended incompletely"

  /** The elements written one after the other, in vector order. */
  function WriteAll(ps: seq<Property>, write: ElementWriter): seq<byte>
  {
    if ps == [] then [] else write(ps[0]) + WriteAll(ps[1..], write)
  }

  /** Reads `n` elements in order; running out fails with "Binary was ended incompletely". */
  function ReadN(s: seq<byte>, n: nat, read: ElementReader): Result<(seq<Property>, seq<byte>), DeError>
    decreases n
  {
    if n == 0 then Ok(([], s))
    else match read(s)
      case Err(e) => Err(e)
      case Ok(None) => Err(Custom(IncompleteMessage))
      case Ok(Some((p, next))) => Prepend([p], ReadN(next, n - 1, read))
  }

  function Prepend(ps: seq<Property>, r: Result<(seq<Property>, seq<byte>), DeError>): Result<(seq<Property>, seq<byte>), DeError>
  {
    match r
    case Ok((qs, rest)) => Ok((ps + qs, rest))
    case Err(e) => Err(e)
  }

  /** What `visit_seq` computes: the VarInt count, then that many properties, in order. */
  function Visit(input: seq<byte>, read: ElementReader): Result<(PropertyMap, seq<byte>), DeError>
  {
    match NextVarInt(input)
    case Err(e) => Err(e)
    case Ok(None) => Err(Custom(InvalidVarIntMessage))
    case Ok(Some((count, rest))) =>
      match ReadN(rest, Iterations(count), read)
      case Err(e) => Err(e)
      case Ok((ps, after)) => Ok((PropertyMap(ps), after))
  }

  /**
   * `serialize`: a sequence declared `len + 1` long, `VarInt(len as i32)` and
   * then each property in vector order.
   */
  method Serialize(m: PropertyMap, write: ElementWriter) returns (r: Serialized)
    ensures r.declaredLen == |m.inner| + 1
    ensures r.bytes == VarInt.Encode(AsI32(|m.inner|)) + WriteAll(m.inner, write)
  {
    var out := VarInt.Encode(AsI32(|m.inner|));
    for k := 0 to |m.inner|
      invariant out == VarInt.Encode(AsI32(|m.inner|)) + WriteAll(m.inner[..k], write)
    {
      WriteAllSnoc(m.inner[..k], m.inner[k], write);
      assert m.inner[..k + 1] == m.inner[..k] + [m.inner[k]];
      out := out + write(m.inner[k]);
    }
    assert m.inner[..|m.inner|] == m.inner;
    return Serialized(|m.inner| + 1, out);
  }

  /** `PropertyMapVisitor::visit_seq`: the counted loop pushing one property at a time. */
  method VisitSeq(input: seq<byte>, read: ElementReader) returns (r: Result<(PropertyMap, seq<byte>), DeError>)
    ensures r == Visit(input, read)
  {
    var first := NextVarInt(input);
    match first
    case Err(e) =>
      return Err(e);
    case Ok(None) =>
      return Err(Custom(InvalidVarIntMessage));
    case Ok(Some((count, afterCount))) =>
      ghost var n := Iterations(count);
      var pending := afterCount;
      var out: seq<Property> := [];
      var k := 0;
      PrependNothing(ReadN(afterCount, n, read));
      while k < count
        invariant 0 <= k <= n
        invariant ReadN(afterCount, n, read) == Prepend(out, ReadN(pending, n - k, read))
      {
        var next := read(pending);
        match next
        case Err(e) =>
          return Err(e);
        case Ok(None) =>
          return Err(Custom(IncompleteMessage));
        case Ok(Some((p, after))) =>
          assert out + ([p] + []) == out + [p];
          PrependPrepend(out, [p], ReadN(after, n - k - 1, read));
          out := out + [p];
          pending := after;
        k := k + 1;
      }
      assert out + [] == out;
      return Ok((PropertyMap(out), pending));
  }

  lemma PrependNothing(r: Result<(seq<Property>, seq<byte>), DeError>)
    ensures Prepend([], r) == r
  {
    if r.Ok? {
      assert [] + r.value.0 == r.value.0;
    }
  }

  lemma PrependPrepend(ps: seq<Property>, qs: seq<Property>, r: Result<(seq<Property>, seq<byte>), DeError>)
    ensures Prepend(ps, Prepend(qs, r)) == Prepend(ps + qs, r)
  {
    if r.Ok? {
      assert ps + (qs + r.value.0) == ps + qs + r.value.0;
    }
  }

  lemma {:induction false} WriteAllSnoc(ps: seq<Property>, p: Property, write: ElementWriter)
    ensures WriteAll(ps + [p], write) == WriteAll(ps, write) + write(p)
  {
    if ps != [] {
      assert (ps + [p])[1..] == ps[1..] + [p];
      WriteAllSnoc(ps[1..], p, write);
    } else {
      assert [p][1..] == [];
    }
  }

  /** With a mirrored element codec, reading `|ps|` elements of `WriteAll(ps)` gives back `ps` in order. */
  lemma {:induction false} ReadNWriteAll(ps: seq<Property>, rest: seq<byte>, read: ElementReader, write: ElementWriter)
    requires Mirrors(read, write)
    ensures ReadN(WriteAll(ps, write) + rest, |ps|, read) == Ok((ps, rest))
  {
    if ps != [] {
      var tail := WriteAll(ps[1..], write) + rest;
      assert WriteAll(ps, write) + rest == write(ps[0]) + tail;
      assert read(write(ps[0]) + tail) == Ok(Some((ps[0], tail)));
      ReadNWriteAll(ps[1..], rest, read, write);
      assert [ps[0]] + ps[1..] == ps;
    } else {
      assert WriteAll(ps, write) + rest == rest;
    }
  }

  /** Deserialising what `serialize` emitted gives back the same properties in the same order. */
  lemma VisitSerialize(m: PropertyMap, rest: seq<byte>, read: ElementReader, write: ElementWriter)
    requires Mirrors(read, write)
    requires |m.inner| < TwoTo31
    ensures Visit(VarInt.Encode(AsI32(|m.inner|)) + WriteAll(m.inner, write) + rest, read) == Ok((m, rest))
  {
    var tail := WriteAll(m.inner, write) + rest;
    assert VarInt.Encode(AsI32(|m.inner|)) + WriteAll(m.inner, write) + rest == VarInt.Encode(|m.inner|) + tail;
    NextVarIntEncode(|m.inner|, tail);
    ReadNWriteAll(m.inner, rest, read, write);
  }

  /** An exhausted sequence has no leading count: "invalid varint". */
  lemma VisitEmpty(read: ElementReader)
    ensures Visit([], read) == Err(Custom(InvalidVarIntMessage))
  {
  }

  /** A count of zero or below gives an empty map and reads no property. */
  lemma VisitNonPositive(count: int, rest: seq<byte>, read: ElementReader)
    requires IsI32(count) && count <= 0
    ensures Visit(VarInt.Encode(count) + rest, read) == Ok((PropertyMap([]), rest))
  {
    NextVarIntEncode(count, rest);
  }

  /** A sequence that ends before the count is reached: "Binary was ended incompletely". */
  lemma {:induction false} ReadNEndsEarly(ps: seq<Property>, n: nat, read: ElementReader, write: ElementWriter)
    requires Mirrors(read, write)
    requires read([]) == Ok(None)
    requires |ps| < n
    ensures ReadN(WriteAll(ps, write), n, read) == Err(Custom(IncompleteMessage))
  {
    if ps != [] {
      var tail := WriteAll(ps[1..], write);
      assert WriteAll(ps, write) == write(ps[0]) + tail;
      assert read(write(ps[0]) + tail) == Ok(Some((ps[0], tail)));
      ReadNEndsEarly(ps[1..], n - 1, read, write);
    }
  }
}
