/**
 * The singleton counter (`Counter`, `Counter.getInstance`). Objects live in
 * a store and are named by their position in it; `instance` is
 * `Counter._instance`, absent (null) until the first `getInstance`.
 */
module Singleton {
  import opened Base

  datatype Counter = Counter(count: int)

  datatype World = World(instance: Option<nat>, objects: seq<Counter>)

  /** Before any call: no instance and no objects. */
  function Start(): World
  {
    World(None, [])
  }

  /** The instance, when there is one, is an object of the store. */
  predicate Good(w: World)
  {
    w.instance.Some? ==> w.instance.value < |w.objects|
  }

  /** `new Counter()`: the count starts at 0. */
  function NewCounter(): (c: Counter)
    ensures c.count == 0
  {
    Counter(0)
  }

  /** `increment`: the object's count goes up by exactly one; no other object changes. */
  function Increment(w: World, o: nat): (r: World)
    requires o < |w.objects|
    ensures |r.objects| == |w.objects| && r.instance == w.instance
    ensures r.objects[o].count == w.objects[o].count + 1
    ensures forall p :: 0 <= p < |w.objects| && p != o ==> r.objects[p] == w.objects[p]
  {
    w.(objects := w.objects[o := Counter(w.objects[o].count + 1)])
  }

  /**
   * `getInstance`: the first call creates a counter at 0 and records it as
   * the instance; every call returns the instance.
   */
  function GetInstance(w: World): (r: (World, nat))
    requires Good(w)
    ensures Good(r.0) && r.0.instance == Some(r.1)
    ensures w.instance.Some? ==> r == (w, w.instance.value)
    ensures w.instance.None? ==>
      r.1 == |w.objects| && r.0.objects == w.objects + [NewCounter()]
  {
    if w.instance.None? then
      var o := |w.objects|;
      (World(Some(o), w.objects + [NewCounter()]), o)
    else (w, w.instance.value)
  }

  /** A second call returns the same object and changes nothing. */
  lemma GetInstanceStable(w: World)
    requires Good(w)
    ensures var (w1, o1) := GetInstance(w);
      GetInstance(w1) == (w1, o1)
  {
  }

  /** `Counter.getInstance().increment()`, `k` times. */
  function IncrementInstance(w: World, k: nat): (r: World)
    requires Good(w)
    decreases k
  {
    if k == 0 then w
    else
      var (w1, o) := GetInstance(w);
      IncrementInstance(Increment(w1, o), k - 1)
  }

  /**
   * Increments through `getInstance` accumulate on one object: after `k` of
   * them from a world with an instance, that instance's count is `k` higher
   * and the store is otherwise as it was.
   */
  lemma {:induction false} IncrementsAccumulate(w: World, k: nat)
    requires Good(w) && w.instance.Some?
    decreases k
    ensures var r := IncrementInstance(w, k);
      && r.instance == w.instance && |r.objects| == |w.objects|
      && r.objects[w.instance.value].count == w.objects[w.instance.value].count + k
      && forall p :: 0 <= p < |w.objects| && p != w.instance.value ==> r.objects[p] == w.objects[p]
  {
    if k > 0 {
      var o := w.instance.value;
      IncrementsAccumulate(Increment(w, o), k - 1);
    }
  }

  /** From the start, `k` increments through `getInstance` leave one counter, the instance, at `k`. */
  lemma FromStart(k: nat)
    requires k > 0
    ensures var r := IncrementInstance(Start(), k);
      r.instance == Some(0) && |r.objects| == 1 && r.objects[0].count == k
  {
    var (w1, o) := GetInstance(Start());
    var w2 := Increment(w1, o);
    assert w2.instance == Some(0) && w2.objects == [Counter(1)];
    IncrementsAccumulate(w2, k - 1);
  }
}
