/**
 * The `NoiseParameters` extractor: every entry of the noise parameters
 * registry as a record `{first_octave, amplitudes}`, in one JSON object keyed
 * by the entry's identifier path.
 *
 * The registry is absent (`getOrThrow` fails) or the sequence of its entries
 * in iteration order. `getId` on an entry may yield nothing, which `!!` turns
 * into an exception: an entry's identifier is optional here.
 */
module NoiseParameters {
  import opened Wrappers
  import opened Json
  import opened Registry

  /** `fileName()`. */
  const FileName: string := "noise_parameters.json"

  /** `DoublePerlinNoiseSampler.NoiseParameters`; the amplitudes are `double` bit patterns. */
  datatype NoiseParams = NoiseParams(firstOctave: int, amplitudes: seq<nat>)

  datatype Entry = Entry(id: Option<Identifier>, noise: NoiseParams)

  /**
   * The record one entry becomes: exactly the keys `first_octave` and
   * `amplitudes`; the first octave copied as is, the amplitudes keeping
   * their number and order.
   */
  function Record(p: NoiseParams): (r: Json)
    ensures r.JObject? && Keys(r.members) == ["first_octave", "amplitudes"]
    ensures Lookup(r.members, "first_octave") == Some(JNumber(Integer(p.firstOctave)))
    ensures Lookup(r.members, "amplitudes").Some?
    ensures var a := Lookup(r.members, "amplitudes").value;
      a.JArray? && |a.items| == |p.amplitudes| &&
      forall j :: 0 <= j < |a.items| ==> a.items[j] == JNumber(Double(p.amplitudes[j]))
  {
    JObject([
      Member("first_octave", JNumber(Integer(p.firstOctave))),
      Member("amplitudes", JArray(seq(|p.amplitudes|, i requires 0 <= i < |p.amplitudes| => JNumber(Double(p.amplitudes[i])))))
    ])
  }

  /**
   * The `(key, record)` pairs the loop adds, in registry order; the first
   * entry without an identifier fails the extraction.
   */
  function Pairs(entries: seq<Entry>): (r: Result<seq<Member>, ExtractError>)
    ensures r.Ok? <==> forall i :: 0 <= i < |entries| ==> entries[i].id.Some?
    ensures r.Err? ==> r.error == MissingKey
    ensures r.Ok? ==> |r.value| == |entries|
    ensures r.Ok? ==> forall i :: 0 <= i < |entries| ==>
      r.value[i] == Member(entries[i].id.value.path, Record(entries[i].noise))
  {
    if entries == [] then Ok([])
    else
      var last := entries[|entries| - 1];
      match Pairs(entries[..|entries| - 1])
      case Err(e) => Err(e)
      case Ok(ps) =>
        if last.id.None? then Err(MissingKey)
        else Ok(ps + [Member(last.id.value.path, Record(last.noise))])
  }

  /**
   * What `extract` returns or the failure it raises. It fails exactly when
   * the registry is missing or some entry has no identifier; an empty
   * registry gives an empty object.
   */
  function Extraction(registry: Option<seq<Entry>>): (r: Result<Json, ExtractError>)
    ensures registry.None? ==> r == Err(MissingRegistry)
    ensures registry.Some? ==> (r.Err? <==> exists i :: 0 <= i < |registry.value| && registry.value[i].id.None?)
    ensures registry.Some? && r.Err? ==> r == Err(MissingKey)
    ensures registry == Some([]) ==> r == Ok(JObject([]))
  {
    if registry.None? then Err(MissingRegistry)
    else
      match Pairs(registry.value)
      case Err(e) => Err(e)
      case Ok(ps) => Ok(JObject(AddAll(ps)))
  }

  /**
   * The loop body's record: a fresh object gets `first_octave`, then the
   * `amplitudes` array filled one amplitude at a time.
   */
  method RecordOf(noise: NoiseParams) returns (noiseJson: Json)
    ensures noiseJson == Record(noise)
  {
    var members := Add([], "first_octave", JNumber(Integer(noise.firstOctave)));
    var amplitudesJson: seq<Json> := [];
    for k := 0 to |noise.amplitudes|
      invariant |amplitudesJson| == k
      invariant forall j :: 0 <= j < k ==> amplitudesJson[j] == JNumber(Double(noise.amplitudes[j]))
    {
      amplitudesJson := amplitudesJson + [JNumber(Double(noise.amplitudes[k]))];
    }
    assert amplitudesJson == Record(noise).members[1].value.items;
    assert members == [Member("first_octave", JNumber(Integer(noise.firstOctave)))];
    assert members[0].key != "amplitudes" && members[1..] == [];
    assert Add(members, "amplitudes", JArray(amplitudesJson))
        == [members[0]] + Add([], "amplitudes", JArray(amplitudesJson));
    members := Add(members, "amplitudes", JArray(amplitudesJson));
    noiseJson := JObject(members);
  }

  /**
   * `extract`: each entry's record is added under the entry's path, in
   * registry order.
   */
  method Extract(registry: Option<seq<Entry>>) returns (r: Result<Json, ExtractError>)
    ensures r == Extraction(registry)
  {
    if registry.None? {
      return Err(MissingRegistry);
    }
    var entries := registry.value;
    var noisesJson: seq<Member> := [];
    for i := 0 to |entries|
      invariant Pairs(entries[..i]).Ok?
      invariant noisesJson == AddAll(Pairs(entries[..i]).value)
    {
      assert entries[..i + 1][..i] == entries[..i];
      var noiseJson := RecordOf(entries[i].noise);
      match entries[i].id {
        case None =>
          assert !Pairs(entries).Ok?;
          return Err(MissingKey);
        case Some(id) =>
          noisesJson := Add(noisesJson, id.path, noiseJson);
      }
    }
    assert entries[..|entries|] == entries;
    r := Ok(JObject(noisesJson));
  }

  /**
   * Records are keyed by path, and a later entry with the same path
   * overwrites an earlier one: the record under an entry's path is that of
   * the last entry with that path. No other key occurs, and no key twice.
   */
  lemma ExtractionKeyedByPath(entries: seq<Entry>, i: nat, key: string)
    requires Extraction(Some(entries)).Ok?
    requires i < |entries|
    requires forall j :: i < j < |entries| ==> entries[j].id.value.path != entries[i].id.value.path
    ensures Extraction(Some(entries)).value.JObject?
    ensures Lookup(Extraction(Some(entries)).value.members, entries[i].id.value.path) == Some(Record(entries[i].noise))
    ensures (forall j :: 0 <= j < |entries| ==> entries[j].id.value.path != key) ==>
      Lookup(Extraction(Some(entries)).value.members, key) == None
    ensures DistinctKeys(Extraction(Some(entries)).value.members)
  {
    var ps := Pairs(entries).value;
    AddAllLast(ps, i);
    if forall j :: 0 <= j < |entries| ==> entries[j].id.value.path != key {
      AddAllAbsent(ps, key);
    }
    AddAllDistinctKeys(ps);
  }
}
