/**
 * The drain-and-clear queue (`ThreadsafeConsumableVector`) with its mutex
 * dropped: producers append items, optionally under a key that may be
 * registered only once until the next drain, and the consumer takes
 * everything at once.
 */
module Consumable {

  datatype Vector<K, T> = Vector(items: seq<T>, keys: set<K>)

  function Empty<K, T>(): (v: Vector<K, T>)
    ensures v.items == [] && v.keys == {}
  {
    Vector([], {})
  }

  /** `add`: the item goes at the end; no key is recorded. */
  function Add<K, T>(v: Vector<K, T>, x: T): (r: Vector<K, T>)
    ensures r.items == v.items + [x] && r.keys == v.keys
  {
    v.(items := v.items + [x])
  }

  /**
   * `addUnique`: with the key not yet registered the item goes at the end, the
   * key is registered and the answer is true; otherwise nothing changes and
   * the answer is false.
   */
  function AddUnique<K(==), T>(v: Vector<K, T>, k: K, x: T): (r: (Vector<K, T>, bool))
    ensures r.1 <==> k !in v.keys
    ensures r.1 ==> r.0.items == v.items + [x] && r.0.keys == v.keys + {k}
    ensures !r.1 ==> r.0 == v
    ensures k in r.0.keys
  {
    if k in v.keys then (v, false) else (Vector(v.items + [x], v.keys + {k}), true)
  }

  /** `getItems`: everything pending, in insertion order; afterwards items and keys are empty. */
  function GetItems<K, T>(v: Vector<K, T>): (r: (seq<T>, Vector<K, T>))
    ensures r.0 == v.items && r.1 == Empty()
  {
    (v.items, Empty())
  }

  /** After a drain every key can be registered again. */
  lemma KeyFreeAfterDrain<K, T>(v: Vector<K, T>, k: K, x: T)
    ensures AddUnique(GetItems(v).1, k, x) == (Vector([x], {k}), true)
  {
    assert [] + [x] == [x];
    assert {} + {k} == {k};
  }

  // ---------------------------------------------------------------------------
  // Reference: what a sequence of producer calls leaves in the queue

  datatype Call<K, T> = AddCall(item: T) | AddUniqueCall(key: K, item: T)

  function Apply<K(==), T>(v: Vector<K, T>, calls: seq<Call<K, T>>): Vector<K, T>
    decreases |calls|
  {
    if calls == [] then v
    else
      var v' := match calls[0]
        case AddCall(x) => Add(v, x)
        case AddUniqueCall(k, x) => AddUnique(v, k, x).0;
      Apply(v', calls[1..])
  }

  /**
   * The items a sequence of calls contributes: every plain item, and a keyed
   * item only when its key is neither registered already nor used by an
   * earlier call in the sequence.
   */
  function Kept<K(==), T>(seen: set<K>, calls: seq<Call<K, T>>): seq<T>
    decreases |calls|
  {
    if calls == [] then []
    else match calls[0]
      case AddCall(x) => [x] + Kept(seen, calls[1..])
      case AddUniqueCall(k, x) =>
        if k in seen then Kept(seen, calls[1..]) else [x] + Kept(seen + {k}, calls[1..])
  }

  function KeysOf<K, T>(calls: seq<Call<K, T>>): set<K>
    decreases |calls|
  {
    if calls == [] then {}
    else match calls[0]
      case AddCall(_) => KeysOf(calls[1..])
      case AddUniqueCall(k, _) => {k} + KeysOf(calls[1..])
  }

  /**
   * Producer calls between two drains: the queue holds the earlier items
   * followed by the kept ones, in call order, and the keys of every keyed call.
   */
  lemma {:induction false} ApplyKeeps<K, T>(v: Vector<K, T>, calls: seq<Call<K, T>>)
    decreases |calls|
    ensures Apply(v, calls).items == v.items + Kept(v.keys, calls)
    ensures Apply(v, calls).keys == v.keys + KeysOf(calls)
  {
    if calls != [] {
      match calls[0]
      case AddCall(x) =>
        ApplyKeeps(Add(v, x), calls[1..]);
      case AddUniqueCall(k, x) =>
        ApplyKeeps(AddUnique(v, k, x).0, calls[1..]);
    }
  }

  /** With no keyed calls, the drain returns exactly the items added, in order. */
  lemma {:induction false} PlainAddsAllKept<K, T>(seen: set<K>, calls: seq<Call<K, T>>)
    requires forall i :: 0 <= i < |calls| ==> calls[i].AddCall?
    decreases |calls|
    ensures |Kept(seen, calls)| == |calls|
    ensures forall i :: 0 <= i < |calls| ==> Kept(seen, calls)[i] == calls[i].item
  {
    if calls != [] {
      PlainAddsAllKept(seen, calls[1..]);
    }
  }

  /** Two keyed calls under one key between drains keep only the first item. */
  lemma SecondKeyedCallDropped<K, T>(k: K, x: T, y: T)
    ensures Apply(Empty(), [AddUniqueCall(k, x), AddUniqueCall(k, y)]).items == [x]
  {
    var calls := [AddUniqueCall(k, x), AddUniqueCall(k, y)];
    ApplyKeeps(Empty<K, T>(), calls);
    assert calls[1..] == [AddUniqueCall(k, y)];
    assert calls[1..][1..] == [];
    assert Kept({k}, calls[1..]) == [];
    var none: set<K> := {};
    assert none + {k} == {k};
    assert Kept(none, calls) == [x] + Kept({k}, calls[1..]);
  }
}
