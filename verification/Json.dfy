/**
 * The part of Gson the extractors use: arrays, objects whose members keep
 * insertion order (`JsonObject` is backed by a `LinkedTreeMap`), and number
 * and string primitives. `JsonObject.add` and `addProperty` put a member:
 * an existing key gets the new value in its old position, a new key is
 * appended.
 *
 * Floating-point values are carried as their bit patterns; nothing here
 * computes with them.
 */
module Json {
  import opened Wrappers

  datatype Number =
    | Integer(value: int)   // an `Int` or `Long` primitive
    | Float(bits: nat)      // a `Float` primitive, by its IEEE 754 bit pattern
    | Double(bits: nat)     // a `Double` primitive, by its IEEE 754 bit pattern

  datatype Json =
    | JString(text: string)
    | JNumber(number: Number)
    | JArray(items: seq<Json>)
    | JObject(members: seq<Member>)

  datatype Member = Member(key: string, value: Json)

  /** The keys of an object, in member order. */
  function Keys(ms: seq<Member>): (ks: seq<string>)
    ensures |ks| == |ms| && forall i :: 0 <= i < |ms| ==> ks[i] == ms[i].key
  {
    if ms == [] then [] else [ms[0].key] + Keys(ms[1..])
  }

  predicate DistinctKeys(ms: seq<Member>)
  {
    forall i, j :: 0 <= i < j < |ms| ==> ms[i].key != ms[j].key
  }

  /** `JsonObject.get(key)`. */
  function Lookup(ms: seq<Member>, key: string): Option<Json>
  {
    if ms == [] then None
    else if ms[0].key == key then Some(ms[0].value)
    else Lookup(ms[1..], key)
  }

  /** `JsonObject.add(key, value)`, which is `LinkedTreeMap.put`. */
  function Add(ms: seq<Member>, key: string, value: Json): seq<Member>
  {
    if ms == [] then [Member(key, value)]
    else if ms[0].key == key then [Member(key, value)] + ms[1..]
    else [ms[0]] + Add(ms[1..], key, value)
  }

  /** After `add`, the key maps to the new value and every other key to what it mapped to before. */
  lemma {:induction false} AddLookup(ms: seq<Member>, key: string, value: Json, k: string)
    ensures Lookup(Add(ms, key, value), k) == if k == key then Some(value) else Lookup(ms, k)
  {
    if ms != [] && ms[0].key != key {
      AddLookup(ms[1..], key, value, k);
    }
  }

  /** An existing key keeps its place; a new key goes last. */
  lemma {:induction false} AddPlace(ms: seq<Member>, key: string, value: Json)
    ensures key in Keys(ms) ==> Keys(Add(ms, key, value)) == Keys(ms)
    ensures key !in Keys(ms) ==> Add(ms, key, value) == ms + [Member(key, value)]
  {
    if ms != [] && ms[0].key != key {
      AddPlace(ms[1..], key, value);
      assert Keys(ms) == [ms[0].key] + Keys(ms[1..]);
      assert Keys(Add(ms, key, value)) == [ms[0].key] + Keys(Add(ms[1..], key, value));
      assert ms == [ms[0]] + ms[1..];
    }
  }

  /** `add` never makes a key occur twice. */
  lemma AddDistinct(ms: seq<Member>, key: string, value: Json)
    requires DistinctKeys(ms)
    ensures DistinctKeys(Add(ms, key, value))
  {
    AddPlace(ms, key, value);
    var r := Add(ms, key, value);
    if key in Keys(ms) {
      assert forall i :: 0 <= i < |r| ==> r[i].key == Keys(r)[i] == Keys(ms)[i] == ms[i].key;
    }
  }

  /** The members a fresh `JsonObject` holds after `add` of each pair in turn. */
  function AddAll(ps: seq<Member>): seq<Member>
  {
    if ps == [] then [] else Add(AddAll(ps[..|ps| - 1]), ps[|ps| - 1].key, ps[|ps| - 1].value)
  }

  /** Adding one more pair is one more `add`. */
  lemma AddAllSnoc(ps: seq<Member>, m: Member)
    ensures AddAll(ps + [m]) == Add(AddAll(ps), m.key, m.value)
  {
    assert (ps + [m])[..|ps|] == ps;
  }

  /** The reference for last-write-wins: the value of the last pair with the key. */
  function LastValue(ps: seq<Member>, key: string): Option<Json>
  {
    if ps == [] then None
    else if ps[|ps| - 1].key == key then Some(ps[|ps| - 1].value)
    else LastValue(ps[..|ps| - 1], key)
  }

  /** After adding the pairs one by one, each key holds the value it was given last. */
  lemma {:induction false} AddAllLookup(ps: seq<Member>, key: string)
    ensures Lookup(AddAll(ps), key) == LastValue(ps, key)
  {
    if ps != [] {
      AddAllLookup(ps[..|ps| - 1], key);
      AddLookup(AddAll(ps[..|ps| - 1]), ps[|ps| - 1].key, ps[|ps| - 1].value, key);
    }
  }

  /** The last pair with a key gives that key its value. */
  lemma {:induction false} LastValueAt(ps: seq<Member>, i: nat)
    requires i < |ps|
    requires forall j :: i < j < |ps| ==> ps[j].key != ps[i].key
    ensures LastValue(ps, ps[i].key) == Some(ps[i].value)
  {
    if i < |ps| - 1 {
      var init := ps[..|ps| - 1];
      assert init[i] == ps[i];
      forall j | i < j < |init|
        ensures init[j].key != init[i].key
      {
        assert init[j] == ps[j];
      }
      LastValueAt(init, i);
    }
  }

  /** Last write wins: in an object built by `add`, a key holds the value of the last pair with that key. */
  lemma AddAllLast(ps: seq<Member>, i: nat)
    requires i < |ps|
    requires forall j :: i < j < |ps| ==> ps[j].key != ps[i].key
    ensures Lookup(AddAll(ps), ps[i].key) == Some(ps[i].value)
  {
    AddAllLookup(ps, ps[i].key);
    LastValueAt(ps, i);
  }

  /** A key no pair has is absent from the object built by `add`. */
  lemma AddAllAbsent(ps: seq<Member>, key: string)
    requires forall j :: 0 <= j < |ps| ==> ps[j].key != key
    ensures Lookup(AddAll(ps), key) == None
  {
    AddAllLookup(ps, key);
    LastValueSome(ps, key);
  }

  /** No key occurs twice in an object built by `add`. */
  lemma {:induction false} AddAllDistinctKeys(ps: seq<Member>)
    ensures DistinctKeys(AddAll(ps))
  {
    if ps != [] {
      AddAllDistinctKeys(ps[..|ps| - 1]);
      AddDistinct(AddAll(ps[..|ps| - 1]), ps[|ps| - 1].key, ps[|ps| - 1].value);
    }
  }

  /** Some pair gives the key a value exactly when one of the pairs has that key. */
  lemma {:induction false} LastValueSome(ps: seq<Member>, key: string)
    ensures LastValue(ps, key).Some? <==> exists i :: 0 <= i < |ps| && ps[i].key == key
  {
    if ps != [] {
      var init := ps[..|ps| - 1];
      LastValueSome(init, key);
      if ps[|ps| - 1].key != key {
        forall i | 0 <= i < |ps| - 1
          ensures init[i] == ps[i]
        {
        }
      }
    }
  }

  /** Pairs with distinct keys are added in order, none replaced. */
  lemma {:induction false} AddAllDistinct(ps: seq<Member>)
    requires DistinctKeys(ps)
    ensures AddAll(ps) == ps
  {
    if ps != [] {
      var init, last := ps[..|ps| - 1], ps[|ps| - 1];
      assert DistinctKeys(init);
      AddAllDistinct(init);
      assert last.key !in Keys(init) by {
        forall i | 0 <= i < |init|
          ensures Keys(init)[i] != last.key
        {
          assert init[i] == ps[i];
        }
      }
      AddPlace(init, last.key, last.value);
      assert init + [last] == ps;
    }
  }
}
