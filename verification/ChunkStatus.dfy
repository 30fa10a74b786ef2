/**
 * The `ChunkStatus` extractor: the chunk generation statuses of the game's
 * chunk status registry, as a JSON array of their identifiers' paths.
 *
 * The chunk status registry is a defaulted registry, so `getId` always yields
 * an identifier and the extractor cannot fail. The registry is the sequence
 * of the statuses' identifiers in iteration order.
 */
module ChunkStatus {
  import opened Json
  import opened Registry

  /** `fileName()`. */
  const FileName: string := "chunk_status.json"

  /**
   * `extract`: one element per registry entry, in registry order, holding the
   * identifier's path without its namespace. An empty registry gives an
   * empty array.
   */
  method Extract(registry: seq<Identifier>) returns (statusJson: Json)
    ensures statusJson.JArray? && |statusJson.items| == |registry|
    ensures forall i :: 0 <= i < |registry| ==> statusJson.items[i] == JString(registry[i].path)
  {
    var items: seq<Json> := [];
    for i := 0 to |registry|
      invariant |items| == i
      invariant forall j :: 0 <= j < i ==> items[j] == JString(registry[j].path)
    {
      items := items + [JString(registry[i].path)];
    }
    statusJson := JArray(items);
  }
}
