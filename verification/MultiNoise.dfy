/**
 * The `MultiNoise` extractor: every multi-noise biome source parameter list
 * of the registry, as a two-level JSON object. The outer key is the list's
 * identifier path; the inner object maps each biome's full identifier
 * `namespace:path` to its noise hypercube, an object of six parameter ranges
 * and an offset.
 *
 * `MultiNoiseUtil.toFloat`, the fixed-point to `float` conversion, belongs to
 * the game and stays uninterpreted: a parameter from the stored `long` to the
 * bit pattern of the `float`.
 */
module MultiNoise {
  import opened Wrappers
  import opened Json
  import opened Registry

  /** `fileName()`. */
  const FileName: string := "multi_noise.json"

  type ToFloat = int -> nat

  datatype ParameterRange = ParameterRange(min: int, max: int)

  datatype NoiseHypercube = NoiseHypercube(
    temperature: ParameterRange,
    humidity: ParameterRange,
    continentalness: ParameterRange,
    erosion: ParameterRange,
    depth: ParameterRange,
    weirdness: ParameterRange,
    offset: int)

  /** One pair of a parameter list: a hypercube and the biome entry it selects, whose key is optional. */
  datatype BiomePair = BiomePair(cube: NoiseHypercube, biome: Option<Identifier>)

  /** One registry entry: its optional key and its parameter list's pairs. */
  datatype ParameterList = ParameterList(key: Option<Identifier>, pairs: seq<BiomePair>)

  /** `parameterRangeToJson`: a two-element array. */
  function RangeToJson(toFloat: ToFloat, range: ParameterRange): Json
  {
    JArray([JNumber(Float(toFloat(range.min))), JNumber(Float(toFloat(range.max)))])
  }

  const CubeKeys: seq<string> :=
    ["temperature", "humidity", "continentalness", "erosion", "depth", "weirdness", "offset"]

  /** The seven members `noiseHypercubeToJson` adds, in the order it adds them. */
  function CubeMembers(toFloat: ToFloat, cube: NoiseHypercube): seq<Member>
  {
    [ Member("temperature", RangeToJson(toFloat, cube.temperature)),
      Member("humidity", RangeToJson(toFloat, cube.humidity)),
      Member("continentalness", RangeToJson(toFloat, cube.continentalness)),
      Member("erosion", RangeToJson(toFloat, cube.erosion)),
      Member("depth", RangeToJson(toFloat, cube.depth)),
      Member("weirdness", RangeToJson(toFloat, cube.weirdness)),
      Member("offset", JNumber(Float(toFloat(cube.offset)))) ]
  }

  /** `noiseHypercubeToJson`: a fresh object gets the seven members one `add` at a time. */
  function CubeToJson(toFloat: ToFloat, cube: NoiseHypercube): Json
  {
    JObject(AddAll(CubeMembers(toFloat, cube)))
  }

  /**
   * A cube object has exactly seven keys, in the fixed order; each range is
   * `[toFloat(min), toFloat(max)]` and the offset is `toFloat(offset)`.
   */
  lemma CubeShape(toFloat: ToFloat, cube: NoiseHypercube)
    ensures CubeToJson(toFloat, cube).members == CubeMembers(toFloat, cube)
    ensures Keys(CubeToJson(toFloat, cube).members) == CubeKeys
  {
    var ms := CubeMembers(toFloat, cube);
    // The seven keys have seven different lengths.
    var lengths := [11, 8, 15, 7, 5, 9, 6];
    assert forall i :: 0 <= i < 7 ==> |ms[i].key| == lengths[i];
    AddAllDistinct(ms);
    assert Keys(ms) == CubeKeys;
  }

  /** Every pair's biome has a key. */
  predicate BiomesKeyed(pairs: seq<BiomePair>)
  {
    forall j :: 0 <= j < |pairs| ==> pairs[j].biome.Some?
  }

  /** `noiseHypercubeToJson` as a value, for the loops that call it. */
  function Render(toFloat: ToFloat): NoiseHypercube -> Json
  {
    cube => CubeToJson(toFloat, cube)
  }

  /** The `(biome id, cube)` pairs the inner loop adds; a biome without a key fails. */
  function InnerPairs(render: NoiseHypercube -> Json, pairs: seq<BiomePair>): (r: Result<seq<Member>, ExtractError>)
    ensures r.Ok? <==> BiomesKeyed(pairs)
    ensures r.Err? ==> r.error == MissingKey
  {
    if pairs == [] then Ok([])
    else
      var last := pairs[|pairs| - 1];
      match InnerPairs(render, pairs[..|pairs| - 1])
      case Err(e) => Err(e)
      case Ok(ms) =>
        if last.biome.None? then Err(MissingKey)
        else Ok(ms + [Member(FullName(last.biome.value), render(last.cube))])
  }

  /** The inner loop adds, for the `j`-th pair, the biome's full identifier and its cube. */
  lemma {:induction false} InnerPairsAt(render: NoiseHypercube -> Json, pairs: seq<BiomePair>)
    requires BiomesKeyed(pairs)
    ensures |InnerPairs(render, pairs).value| == |pairs|
    ensures forall j :: 0 <= j < |pairs| ==>
      InnerPairs(render, pairs).value[j] == Member(FullName(pairs[j].biome.value), render(pairs[j].cube))
  {
    if pairs != [] {
      var init := pairs[..|pairs| - 1];
      assert BiomesKeyed(init) by {
        forall j | 0 <= j < |init|
          ensures init[j] == pairs[j]
        {
        }
      }
      InnerPairsAt(render, init);
    }
  }

  /** One more pair with a keyed biome is one more member. */
  lemma InnerPairsSnoc(render: NoiseHypercube -> Json, pairs: seq<BiomePair>, j: nat)
    requires j < |pairs| && pairs[j].biome.Some?
    requires InnerPairs(render, pairs[..j]).Ok?
    ensures InnerPairs(render, pairs[..j + 1])
         == Ok(InnerPairs(render, pairs[..j]).value + [Member(FullName(pairs[j].biome.value), render(pairs[j].cube))])
  {
    assert pairs[..j + 1][..j] == pairs[..j];
  }

  /** The object a list becomes: its own fresh object filled by the inner loop. */
  function ListObject(render: NoiseHypercube -> Json, list: ParameterList): (r: Result<Json, ExtractError>)
    ensures r.Ok? <==> BiomesKeyed(list.pairs)
    ensures r.Err? ==> r == Err(MissingKey)
  {
    match InnerPairs(render, list.pairs)
    case Err(e) => Err(e)
    case Ok(ms) => Ok(JObject(AddAll(ms)))
  }

  /** The `(list path, list object)` pairs the outer loop adds; a list or biome without a key fails. */
  function OuterPairs(render: NoiseHypercube -> Json, lists: seq<ParameterList>): (r: Result<seq<Member>, ExtractError>)
    ensures r.Ok? <==> forall i :: 0 <= i < |lists| ==> lists[i].key.Some? && BiomesKeyed(lists[i].pairs)
    ensures r.Err? ==> r.error == MissingKey
  {
    if lists == [] then Ok([])
    else
      var last := lists[|lists| - 1];
      match OuterPairs(render, lists[..|lists| - 1])
      case Err(e) => Err(e)
      case Ok(ms) =>
        if last.key.None? then Err(MissingKey)
        else
          match ListObject(render, last)
          case Err(e) => Err(e)
          case Ok(obj) => Ok(ms + [Member(last.key.value.path, obj)])
  }

  /** The outer loop adds, for the `i`-th list, the list's path and its own object. */
  lemma {:induction false} OuterPairsAt(render: NoiseHypercube -> Json, lists: seq<ParameterList>)
    requires OuterPairs(render, lists).Ok?
    ensures |OuterPairs(render, lists).value| == |lists|
    ensures forall i :: 0 <= i < |lists| ==>
      OuterPairs(render, lists).value[i] == Member(lists[i].key.value.path, ListObject(render, lists[i]).value)
  {
    if lists != [] {
      var init := lists[..|lists| - 1];
      forall i | 0 <= i < |init|
        ensures init[i] == lists[i]
      {
      }
      OuterPairsAt(render, init);
    }
  }

  /**
   * What `extract` returns or the failure it raises: it fails exactly when
   * the registry is missing, or some list or some biome has no key.
   */
  function Extraction(toFloat: ToFloat, registry: Option<seq<ParameterList>>): (r: Result<Json, ExtractError>)
    ensures registry.None? ==> r == Err(MissingRegistry)
    ensures registry.Some? ==> (r.Err? <==>
      exists i :: 0 <= i < |registry.value| && (registry.value[i].key.None? ||
        exists j :: 0 <= j < |registry.value[i].pairs| && registry.value[i].pairs[j].biome.None?))
    ensures registry.Some? && r.Err? ==> r == Err(MissingKey)
    ensures registry == Some([]) ==> r == Ok(JObject([]))
  {
    if registry.None? then Err(MissingRegistry)
    else
      match OuterPairs(Render(toFloat), registry.value)
      case Err(e) => Err(e)
      case Ok(ms) => Ok(JObject(AddAll(ms)))
  }

  /** The inner loop of `extract`: one list's fresh object, filled pair by pair. */
  method ListToJson(toFloat: ToFloat, list: ParameterList) returns (r: Result<Json, ExtractError>)
    ensures r == ListObject(Render(toFloat), list)
  {
    var pairs := list.pairs;
    var paramListJson: seq<Member> := [];
    for j := 0 to |pairs|
      invariant InnerPairs(Render(toFloat), pairs[..j]).Ok?
      invariant paramListJson == AddAll(InnerPairs(Render(toFloat), pairs[..j]).value)
    {
      match pairs[j].biome {
        case None =>
          assert !BiomesKeyed(pairs);
          return Err(MissingKey);
        case Some(biome) =>
          var biomeKey := FullName(biome);
          var noiseJson := CubeToJson(toFloat, pairs[j].cube);
          InnerPairsSnoc(Render(toFloat), pairs, j);
          AddAllSnoc(InnerPairs(Render(toFloat), pairs[..j]).value, Member(biomeKey, noiseJson));
          paramListJson := Add(paramListJson, biomeKey, noiseJson);
      }
    }
    assert pairs[..|pairs|] == pairs;
    r := Ok(JObject(paramListJson));
  }

  /**
   * `extract`: for each registry entry in order, its key path is read, a
   * fresh object is filled by the inner loop, and that object is added to
   * the root under the path, even when the list has no pairs.
   */
  method Extract(toFloat: ToFloat, registry: Option<seq<ParameterList>>) returns (r: Result<Json, ExtractError>)
    ensures r == Extraction(toFloat, registry)
  {
    if registry.None? {
      return Err(MissingRegistry);
    }
    var lists := registry.value;
    var rootJson: seq<Member> := [];
    for i := 0 to |lists|
      invariant OuterPairs(Render(toFloat), lists[..i]).Ok?
      invariant rootJson == AddAll(OuterPairs(Render(toFloat), lists[..i]).value)
    {
      assert lists[..i + 1][..i] == lists[..i];
      if lists[i].key.None? {
        assert !OuterPairs(Render(toFloat), lists).Ok?;
        return Err(MissingKey);
      }
      var keyPath := lists[i].key.value.path;
      var paramListJson := ListToJson(toFloat, lists[i]);
      if paramListJson.Err? {
        assert !OuterPairs(Render(toFloat), lists).Ok?;
        return Err(MissingKey);
      }
      rootJson := Add(rootJson, keyPath, paramListJson.value);
    }
    assert lists[..|lists|] == lists;
    r := Ok(JObject(rootJson));
  }

  /**
   * The outer object: the object under a list's path is that of the last
   * list with the path, built from that list's pairs alone, so pairs of
   * different lists never mix. No other key occurs, and no key twice.
   */
  lemma ExtractionKeyedByListPath(toFloat: ToFloat, lists: seq<ParameterList>, i: nat, key: string)
    requires Extraction(toFloat, Some(lists)).Ok?
    requires i < |lists|
    requires forall k :: i < k < |lists| ==> lists[k].key.value.path != lists[i].key.value.path
    ensures Extraction(toFloat, Some(lists)).value.JObject?
    ensures ListObject(Render(toFloat), lists[i]).Ok?
    ensures Lookup(Extraction(toFloat, Some(lists)).value.members, lists[i].key.value.path)
         == Some(ListObject(Render(toFloat), lists[i]).value)
    ensures (forall k :: 0 <= k < |lists| ==> lists[k].key.value.path != key) ==>
      Lookup(Extraction(toFloat, Some(lists)).value.members, key) == None
    ensures DistinctKeys(Extraction(toFloat, Some(lists)).value.members)
  {
    var ms := OuterPairs(Render(toFloat), lists).value;
    OuterPairsAt(Render(toFloat), lists);
    AddAllLast(ms, i);
    if forall k :: 0 <= k < |lists| ==> lists[k].key.value.path != key {
      AddAllAbsent(ms, key);
    }
    AddAllDistinctKeys(ms);
  }

  /** A list with no pairs still gets its key, holding an empty object. */
  lemma EmptyListStillAdded(toFloat: ToFloat, lists: seq<ParameterList>, i: nat)
    requires Extraction(toFloat, Some(lists)).Ok?
    requires i < |lists| && lists[i].pairs == []
    requires forall k :: i < k < |lists| ==> lists[k].key.value.path != lists[i].key.value.path
    ensures Lookup(Extraction(toFloat, Some(lists)).value.members, lists[i].key.value.path) == Some(JObject([]))
  {
    ExtractionKeyedByListPath(toFloat, lists, i, lists[i].key.value.path);
  }

  /**
   * The inner object: a biome's full identifier maps to the cube of the last
   * pair with that biome; two pairs with the same biome leave only the later
   * cube. No key occurs twice.
   */
  lemma ListKeyedByBiome(toFloat: ToFloat, list: ParameterList, j: nat)
    requires BiomesKeyed(list.pairs)
    requires j < |list.pairs|
    requires forall k :: j < k < |list.pairs| ==>
      FullName(list.pairs[k].biome.value) != FullName(list.pairs[j].biome.value)
    ensures ListObject(Render(toFloat), list).Ok? && ListObject(Render(toFloat), list).value.JObject?
    ensures Lookup(ListObject(Render(toFloat), list).value.members, FullName(list.pairs[j].biome.value))
         == Some(CubeToJson(toFloat, list.pairs[j].cube))
    ensures DistinctKeys(ListObject(Render(toFloat), list).value.members)
  {
    var ms := InnerPairs(Render(toFloat), list.pairs).value;
    InnerPairsAt(Render(toFloat), list.pairs);
    AddAllLast(ms, j);
    AddAllDistinctKeys(ms);
  }

  /**
   * Biomes are keyed by full identifier, so two different biomes never
   * overwrite each other even when their paths agree: a pair whose biome
   * no later pair repeats keeps its cube.
   */
  lemma DistinctBiomesKept(toFloat: ToFloat, list: ParameterList, j: nat)
    requires BiomesKeyed(list.pairs)
    requires j < |list.pairs|
    requires forall k :: 0 <= k < |list.pairs| ==> ValidNamespace(list.pairs[k].biome.value.namespace)
    requires forall k :: j < k < |list.pairs| ==> list.pairs[k].biome.value != list.pairs[j].biome.value
    ensures Lookup(ListObject(Render(toFloat), list).value.members, FullName(list.pairs[j].biome.value))
         == Some(CubeToJson(toFloat, list.pairs[j].cube))
  {
    forall k | j < k < |list.pairs|
      ensures FullName(list.pairs[k].biome.value) != FullName(list.pairs[j].biome.value)
    {
      if FullName(list.pairs[k].biome.value) == FullName(list.pairs[j].biome.value) {
        FullNameInjective(list.pairs[k].biome.value, list.pairs[j].biome.value);
      }
    }
    ListKeyedByBiome(toFloat, list, j);
  }
}
