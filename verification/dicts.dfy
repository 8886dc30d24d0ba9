/**
  A Python dict: a finite map together with the order in which its keys were
  first inserted, which is the order `items()` iterates in. Updating the value
  of a present key keeps its position.
 */
module Dicts {

  datatype Dict<K(==), V> = Dict(keys: seq<K>, values: map<K, V>)

  /** Each key is listed once, and the listed keys are exactly the map's keys. */
  predicate Valid<K(==), V>(d: Dict<K, V>)
  {
    && (forall i, j | 0 <= i < j < |d.keys| :: d.keys[i] != d.keys[j])
    && (forall k | k in d.keys :: k in d.values)
    && (forall k | k in d.values :: k in d.keys)
  }

  function Empty<K(==), V>(): (d: Dict<K, V>)
    ensures Valid(d) && d.values == map[]
  {
    Dict([], map[])
  }

  /** `d[k] = v`. */
  function Insert<K(==), V>(d: Dict<K, V>, k: K, v: V): (r: Dict<K, V>)
    requires Valid(d)
    ensures Valid(r)
    ensures r.values == d.values[k := v]
    ensures k in d.values ==> r.keys == d.keys
    ensures k !in d.values ==> r.keys == d.keys + [k]
  {
    if k in d.values then d.(values := d.values[k := v])
    else Dict(d.keys + [k], d.values[k := v])
  }

  /** `d.items()`, in insertion order. */
  function Items<K(==), V>(d: Dict<K, V>): (r: seq<(K, V)>)
    requires Valid(d)
    ensures |r| == |d.keys|
    ensures forall i | 0 <= i < |r| :: r[i].0 == d.keys[i] && r[i].1 == d.values[d.keys[i]]
  {
    seq(|d.keys|, i requires 0 <= i < |d.keys| => (d.keys[i], d.values[d.keys[i]]))
  }

  /** The keys of an item list are pairwise distinct. */
  predicate DistinctKeys<K(==), V>(items: seq<(K, V)>)
  {
    forall i, j | 0 <= i < j < |items| :: items[i].0 != items[j].0
  }

  /** Inserting a key the dict does not hold lists it last, after the keys it had. */
  lemma InsertNew<K, V>(d: Dict<K, V>, k: K, v: V)
    requires Valid(d) && k !in d.values
    ensures Items(Insert(d, k, v)) == Items(d) + [(k, v)]
  {
    var r := Insert(d, k, v);
    forall i | 0 <= i < |d.keys| ensures Items(r)[i] == Items(d)[i] {
      assert d.keys[i] in d.values;
    }
  }

  /**
    `d[k] = v` for every item of `items`, in order. The keys afterwards are the
    old ones and the items' ones; items with fresh, distinct keys are listed
    after the old entries, in their own order.
   */
  function InsertAll<K(==), V>(d: Dict<K, V>, items: seq<(K, V)>): (r: Dict<K, V>)
    requires Valid(d)
    ensures Valid(r)
    ensures KeysAfter(d, items, r)
    ensures DistinctKeys(items) && (forall i | 0 <= i < |items| :: items[i].0 !in d.values) ==>
              Items(r) == Items(d) + items
    decreases |items|
  {
    if items == [] then d
    else
      var d1 := Insert(d, items[0].0, items[0].1);
      var r := InsertAll(d1, items[1..]);
      InsertAllStep(d, items, d1, r);
      r
  }

  lemma InsertAllStep<K, V>(d: Dict<K, V>, items: seq<(K, V)>, d1: Dict<K, V>, r: Dict<K, V>)
    requires Valid(d) && items != [] && d1 == Insert(d, items[0].0, items[0].1) && Valid(r)
    requires KeysAfter(d1, items[1..], r)
    requires DistinctKeys(items[1..]) && (forall i | 0 <= i < |items| - 1 :: items[1..][i].0 !in d1.values) ==>
               Items(r) == Items(d1) + items[1..]
    ensures KeysAfter(d, items, r)
    ensures DistinctKeys(items) && (forall i | 0 <= i < |items| :: items[i].0 !in d.values) ==>
              Items(r) == Items(d) + items
  {
    KeysStep(d, items, d1, r);
    if DistinctKeys(items) && (forall i | 0 <= i < |items| :: items[i].0 !in d.values) {
      ItemsStep(d, items, d1);
      ItemsAfterFirst(d, items, d1, r);
    }
  }

  lemma ItemsAfterFirst<K, V>(d: Dict<K, V>, items: seq<(K, V)>, d1: Dict<K, V>, r: Dict<K, V>)
    requires Valid(d) && items != [] && d1 == Insert(d, items[0].0, items[0].1) && Valid(r)
    requires items[0].0 !in d.values
    requires Items(r) == Items(d1) + items[1..]
    ensures Items(r) == Items(d) + items
  {
    InsertNew(d, items[0].0, items[0].1);
    assert items == [items[0]] + items[1..];
  }

  lemma KeysStep<K, V>(d: Dict<K, V>, items: seq<(K, V)>, d1: Dict<K, V>, r: Dict<K, V>)
    requires Valid(d) && items != [] && d1 == Insert(d, items[0].0, items[0].1)
    requires KeysAfter(d1, items[1..], r)
    ensures KeysAfter(d, items, r)
  {
    forall i | 0 <= i < |items| ensures items[i].0 in r.values {
      if i > 0 {
        assert items[1..][i - 1] == items[i];
      }
    }
    forall k | k in r.values && k !in d.values ensures exists i | 0 <= i < |items| :: items[i].0 == k {
      if k != items[0].0 {
        var i :| 0 <= i < |items| - 1 && items[1..][i].0 == k;
        assert items[i + 1].0 == k;
      }
    }
  }

  lemma ItemsStep<K, V>(d: Dict<K, V>, items: seq<(K, V)>, d1: Dict<K, V>)
    requires Valid(d) && items != [] && d1 == Insert(d, items[0].0, items[0].1)
    requires DistinctKeys(items) && forall i | 0 <= i < |items| :: items[i].0 !in d.values
    ensures DistinctKeys(items[1..]) && forall i | 0 <= i < |items| - 1 :: items[1..][i].0 !in d1.values
  {
    forall i, j | 0 <= i < j < |items| - 1 ensures items[1..][i].0 != items[1..][j].0 {
      assert items[1..][i] == items[i + 1] && items[1..][j] == items[j + 1];
    }
    forall i | 0 <= i < |items| - 1 ensures items[1..][i].0 !in d1.values {
      assert items[1..][i] == items[i + 1];
      assert items[i + 1].0 != items[0].0;
    }
  }

  /** Inserting `a` and then `b` is inserting `a + b`. */
  lemma {:induction false} InsertAllAppend<K, V>(d: Dict<K, V>, a: seq<(K, V)>, b: seq<(K, V)>)
    requires Valid(d)
    ensures InsertAll(d, a + b) == InsertAll(InsertAll(d, a), b)
    decreases |a|
  {
    if a == [] {
      assert a + b == b;
    } else {
      assert (a + b)[0] == a[0] && (a + b)[1..] == a[1..] + b;
      InsertAllAppend(Insert(d, a[0].0, a[0].1), a[1..], b);
    }
  }

  /** The keys after inserting `items` into `d`: the old ones and the items' ones, and no others. */
  predicate KeysAfter<K(==), V>(d: Dict<K, V>, items: seq<(K, V)>, r: Dict<K, V>)
  {
    && (forall k | k in d.values :: k in r.values)
    && (forall i | 0 <= i < |items| :: items[i].0 in r.values)
    && (forall k | k in r.values :: k in d.values || exists i | 0 <= i < |items| :: items[i].0 == k)
  }

  /** A dict filled by inserting `items` one after the other into an empty one; with distinct keys it lists them in that order. */
  function FromItems<K(==), V>(items: seq<(K, V)>): (d: Dict<K, V>)
    ensures Valid(d)
    ensures forall i | 0 <= i < |items| :: items[i].0 in d.values
    ensures forall k | k in d.values :: exists i | 0 <= i < |items| :: items[i].0 == k
    ensures DistinctKeys(items) ==> Items(d) == items
  {
    var e: Dict<K, V> := Empty();
    assert Items(e) == [];
    InsertAll(e, items)
  }
}
