/**
 * `reduce` into an object of arrays keyed by a derived key, read as a map from
 * key to the elements with that key, and the key order `Object.keys` gives for
 * such an object: each key once, in order of first appearance.
 */
module Grouping {
  import opened Wrappers
  import opened Lists

  /** The reduce: walk the elements in order, appending each to the bucket of its key. */
  function GroupBy<T(!new), K(!new)>(xs: seq<T>, key: T -> K): map<K, seq<T>>
    decreases |xs|
  {
    if xs == [] then map[]
    else
      var acc := GroupBy(xs[..|xs| - 1], key);
      var x := xs[|xs| - 1];
      var k := key(x);
      acc[k := (if k in acc then acc[k] else []) + [x]]
  }

  /** Grouping one more element appends it to the bucket of its key. */
  lemma GroupByAppend<T(!new), K(!new)>(xs: seq<T>, x: T, key: T -> K)
    ensures GroupBy(xs + [x], key) ==
      GroupBy(xs, key)[key(x) := (if key(x) in GroupBy(xs, key) then GroupBy(xs, key)[key(x)] else []) + [x]]
  {
    assert (xs + [x])[..|xs|] == xs;
  }

  /**
   * Grouping is a partition: there is a bucket exactly for each key that occurs, and
   * the bucket of a key holds the elements with that key in their original order.
   */
  lemma {:induction false} GroupByPartition<T(!new), K(!new)>(xs: seq<T>, key: T -> K)
    ensures forall k :: k in GroupBy(xs, key) <==> exists x :: x in xs && key(x) == k
    ensures forall k :: k in GroupBy(xs, key) ==> GroupBy(xs, key)[k] == Filter(xs, x => key(x) == k)
    decreases |xs|
  {
    if xs != [] {
      var init := xs[..|xs| - 1];
      var x := xs[|xs| - 1];
      assert xs == init + [x];
      GroupByPartition(init, key);
      forall k | k in GroupBy(xs, key)
        ensures GroupBy(xs, key)[k] == Filter(xs, y => key(y) == k)
      {
        FilterAppend(init, [x], y => key(y) == k);
        if k !in GroupBy(init, key) {
          FilterNone(init, y => key(y) == k);
        }
      }
      forall k
        ensures k in GroupBy(xs, key) <==> exists y :: y in xs && key(y) == k
      {
        if k in GroupBy(init, key) {
          var y :| y in init && key(y) == k;
          assert y in xs;
        }
      }
    }
  }

  /** The bucket of `k` is the filter by any predicate that holds exactly of the elements with key `k`. */
  lemma GroupByBucket<T(!new), K(!new)>(xs: seq<T>, key: T -> K, k: K, p: T -> bool)
    requires k in GroupBy(xs, key)
    requires forall x :: p(x) <==> key(x) == k
    ensures GroupBy(xs, key)[k] == Filter(xs, p)
  {
    GroupByPartition(xs, key);
    FilterCongruent(xs, x => key(x) == k, p);
  }

  /** Each element lies in the bucket of its own key and in no other bucket. */
  lemma GroupByExactlyOne<T(!new), K(!new)>(xs: seq<T>, key: T -> K, x: T)
    requires x in xs
    ensures key(x) in GroupBy(xs, key) && x in GroupBy(xs, key)[key(x)]
    ensures forall k :: k in GroupBy(xs, key) && k != key(x) ==> x !in GroupBy(xs, key)[k]
  {
    GroupByPartition(xs, key);
  }

  /**
   * The keys of the grouped object, each once, in order of first appearance. `Object.keys`
   * lists integer-like keys first, in ascending order; both callers sort the keys, so
   * only the set of keys and their distinctness matter.
   */
  function KeysInOrder<T, K(==)>(xs: seq<T>, key: T -> K): seq<K>
    decreases |xs|
  {
    if xs == [] then []
    else
      var ks := KeysInOrder(xs[..|xs| - 1], key);
      var k := key(xs[|xs| - 1]);
      if k in ks then ks else ks + [k]
  }

  /** The key list names each bucket exactly once. */
  lemma {:induction false} KeysInOrderSpec<T(!new), K(!new)>(xs: seq<T>, key: T -> K)
    ensures Distinct(KeysInOrder(xs, key))
    ensures forall k :: k in KeysInOrder(xs, key) <==> k in GroupBy(xs, key)
    decreases |xs|
  {
    if xs != [] {
      KeysInOrderSpec(xs[..|xs| - 1], key);
    }
  }

  // ----- the reduce as written, on a plain object literal -----

  /**
   * The names a fresh `{}` already answers through `Object.prototype`. Reading one of
   * them gives a function or the prototype object, which is truthy, so the reduce
   * never creates an array under that key and the following `push` throws.
   */
  const InheritedNames: set<string> := {
    "constructor", "__proto__", "toString", "toLocaleString", "valueOf",
    "hasOwnProperty", "isPrototypeOf", "propertyIsEnumerable",
    "__defineGetter__", "__defineSetter__", "__lookupGetter__", "__lookupSetter__"
  }

  /** The reduce into `{}` with string keys as written: `None` where it throws a `TypeError`. */
  function GroupIntoObject<T(!new)>(xs: seq<T>, key: T -> string): Option<map<string, seq<T>>>
    decreases |xs|
  {
    if xs == [] then Some(map[])
    else
      match GroupIntoObject(xs[..|xs| - 1], key)
      case None => None
      case Some(acc) =>
        var x := xs[|xs| - 1];
        var k := key(x);
        if k in InheritedNames then None
        else Some(acc[k := (if k in acc then acc[k] else []) + [x]])
  }

  /**
   * The reduce as written throws exactly when some key is an inherited name; otherwise
   * it builds the same buckets as the partition `GroupBy`.
   */
  lemma {:induction false} GroupIntoObjectSpec<T(!new)>(xs: seq<T>, key: T -> string)
    ensures GroupIntoObject(xs, key).None? <==> exists x :: x in xs && key(x) in InheritedNames
    ensures GroupIntoObject(xs, key).Some? ==> GroupIntoObject(xs, key).value == GroupBy(xs, key)
    decreases |xs|
  {
    if xs != [] {
      var init := xs[..|xs| - 1];
      assert xs == init + [xs[|xs| - 1]];
      GroupIntoObjectSpec(init, key);
      if exists x :: x in init && key(x) in InheritedNames {
        var x :| x in init && key(x) in InheritedNames;
        assert x in xs;
      }
    }
  }
}
