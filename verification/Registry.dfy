/**
 * The game's registries as the extractors see them: a sequence of entries in
 * iteration order, each with an identifier `namespace:path` that a lookup may
 * fail to produce, and the failures the extractors turn into exceptions.
 */
module Registry {
  datatype Identifier = Identifier(namespace: string, path: string)

  /** `Identifier.toString()`. */
  function FullName(id: Identifier): (s: string)
    ensures |s| == |id.namespace| + 1 + |id.path|
    ensures s[..|id.namespace|] == id.namespace && s[|id.namespace|] == ':'
    ensures s[|id.namespace| + 1..] == id.path
  {
    id.namespace + ":" + id.path
  }

  /** A namespace never contains the separator. */
  predicate ValidNamespace(ns: string)
  {
    forall i :: 0 <= i < |ns| ==> ns[i] != ':'
  }

  /**
   * The full name tells identifiers apart: two identifiers with valid
   * namespaces and the same full name are the same identifier. Their paths
   * alone do not (see `NoiseParameters`).
   */
  lemma FullNameInjective(a: Identifier, b: Identifier)
    requires ValidNamespace(a.namespace) && ValidNamespace(b.namespace)
    requires FullName(a) == FullName(b)
    ensures a == b
  {
  }

  datatype ExtractError =
    | MissingRegistry  // `getOrThrow` on a registry the server does not have
    | MissingKey       // `orElseThrow` / `!!` on an entry without an identifier
}
