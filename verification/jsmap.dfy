/**
 JavaScript's `Map` as `processRedirects` uses it: `new Map(entries)` inserts every
 entry in order with `set`, and `values()` yields the values in the order in
 which their keys were FIRST inserted. Setting a key that is already present
 replaces its value but keeps its position.
 */
module JsMap {

  /** The keys in insertion order, and the value stored under each key. */
  datatype InsertionMap<K, V> = InsertionMap(keys: seq<K>, entries: map<K, V>)

  /** Each key is listed once, and exactly the listed keys carry a value. */
  predicate Valid<K, V>(m: InsertionMap<K, V>) {
    && (forall i, j :: 0 <= i < j < |m.keys| ==> m.keys[i] != m.keys[j])
    && (forall k :: k in m.entries ==> k in m.keys)
    && (forall i :: 0 <= i < |m.keys| ==> m.keys[i] in m.entries)
  }

  /** The keys of a list of entries, in list order. */
  function KeysOf<K, V>(es: seq<(K, V)>): (ks: seq<K>)
    ensures |ks| == |es|
    ensures forall i :: 0 <= i < |es| ==> ks[i] == es[i].0
  {
    seq(|es|, i requires 0 <= i < |es| => es[i].0)
  }

  lemma KeysOfSnoc<K, V>(es: seq<(K, V)>)
    requires |es| > 0
    ensures KeysOf(es) == KeysOf(es[..|es| - 1]) + [es[|es| - 1].0]
  {
  }

  /** The position of the first occurrence of `k` in `ks`. */
  function FirstIndex<K(==)>(ks: seq<K>, k: K): (i: nat)
    requires k in ks
    ensures i < |ks| && ks[i] == k
    ensures forall j :: 0 <= j < i ==> ks[j] != k
  {
    if ks[0] == k then 0 else 1 + FirstIndex(ks[1..], k)
  }

  /** The position of the last occurrence of `k` in `ks`. */
  function LastIndex<K(==)>(ks: seq<K>, k: K): (i: nat)
    requires k in ks
    ensures i < |ks| && ks[i] == k
    ensures forall j :: i < j < |ks| ==> ks[j] != k
  {
    if ks[|ks| - 1] == k then |ks| - 1 else LastIndex(ks[..|ks| - 1], k)
  }

  /** Every element of `keys` occurs in `ks`, and `keys` lists them in the order of their
      first occurrence in `ks`. */
  predicate InFirstOccurrenceOrder<K(==)>(keys: seq<K>, ks: seq<K>) {
    && (forall i :: 0 <= i < |keys| ==> keys[i] in ks)
    && (forall i, j :: 0 <= i < j < |keys| ==> FirstIndex(ks, keys[i]) < FirstIndex(ks, keys[j]))
  }

  /** The set of elements of `ks`. */
  function ElementsOf<K>(ks: seq<K>): set<K> {
    set i | 0 <= i < |ks| :: ks[i]
  }

  /** A list without repetitions has as many elements as its set of elements. */
  lemma {:induction false} DistinctElementsCount<K>(ks: seq<K>)
    requires forall i, j :: 0 <= i < j < |ks| ==> ks[i] != ks[j]
    ensures |ElementsOf(ks)| == |ks|
    decreases |ks|
  {
    if |ks| > 0 {
      var p := ks[..|ks| - 1];
      DistinctElementsCount(p);
      assert ElementsOf(ks) == ElementsOf(p) + {ks[|ks| - 1]};
      assert ks[|ks| - 1] !in ElementsOf(p);
    }
  }

  /** `new Map()`. */
  function Empty<K, V>(): InsertionMap<K, V> {
    InsertionMap([], map[])
  }

  /** `m.set(k, v)`: a key already present keeps its place and takes the new value;
      a new key is placed after all existing ones. */
  function Set<K, V>(m: InsertionMap<K, V>, k: K, v: V): (r: InsertionMap<K, V>)
    requires Valid(m)
    ensures Valid(r)
    ensures k in r.entries && r.entries[k] == v
    ensures forall k' :: k' != k && k' in m.entries ==> k' in r.entries && r.entries[k'] == m.entries[k']
    ensures m.keys <= r.keys
    ensures |r.keys| == |m.keys| + (if k in m.entries then 0 else 1)
  {
    InsertionMap(if k in m.entries then m.keys else m.keys + [k], m.entries[k := v])
  }

  /** `new Map(es)`: every entry is set in list order. */
  function FromEntries<K, V>(es: seq<(K, V)>): (m: InsertionMap<K, V>)
    ensures Valid(m)
    decreases |es|
  {
    if |es| == 0 then Empty()
    else
      var last := es[|es| - 1];
      Set(FromEntries(es[..|es| - 1]), last.0, last.1)
  }

  /** `Array.from(m.values())`: the values in key-insertion order. */
  function Values<K, V>(m: InsertionMap<K, V>): (vs: seq<V>)
    requires Valid(m)
    ensures |vs| == |m.keys| == |m.entries|
    ensures forall i :: 0 <= i < |vs| ==> m.keys[i] in m.entries && vs[i] == m.entries[m.keys[i]]
  {
    assert m.entries.Keys == ElementsOf(m.keys);
    DistinctElementsCount(m.keys);
    seq(|m.keys|, i requires 0 <= i < |m.keys| => m.entries[m.keys[i]])
  }

  lemma {:induction false} FirstIndexAppend<K>(ks: seq<K>, x: K, k: K)
    requires k in ks
    ensures FirstIndex(ks + [x], k) == FirstIndex(ks, k)
  {
    var i := FirstIndex(ks, k);
    var i' := FirstIndex(ks + [x], k);
    assert (ks + [x])[i] == k;
    assert i' <= i;
    assert ks[i'] == k;
  }

  lemma {:induction false} LastIndexAppend<K>(ks: seq<K>, x: K, k: K)
    requires k in ks + [x]
    ensures LastIndex(ks + [x], k) == if x == k then |ks| else LastIndex(ks, k)
  {
    assert (ks + [x])[..|ks|] == ks;
  }

  /** The keys of `new Map(es)` are exactly the keys that occur in `es`. */
  lemma {:induction false} FromEntriesKeys<K, V>(es: seq<(K, V)>)
    ensures forall k :: k in FromEntries(es).keys <==> k in KeysOf(es)
    decreases |es|
  {
    if |es| > 0 {
      var p := es[..|es| - 1];
      var x := es[|es| - 1];
      FromEntriesKeys(p);
      var m := FromEntries(p);
      var r := FromEntries(es);
      assert r == Set(m, x.0, x.1);
      KeysOfSnoc(es);
      if x.0 in m.entries {
        assert r.keys == m.keys;
      } else {
        assert r.keys == m.keys + [x.0];
      }
    }
  }

  /** Each key of `new Map(es)` carries the value of the LAST entry of `es` with that key. */
  lemma {:induction false} FromEntriesLastWins<K, V>(es: seq<(K, V)>)
    ensures forall k :: k in KeysOf(es) ==>
      k in FromEntries(es).entries && FromEntries(es).entries[k] == es[LastIndex(KeysOf(es), k)].1
    decreases |es|
  {
    if |es| > 0 {
      var p := es[..|es| - 1];
      var x := es[|es| - 1];
      FromEntriesLastWins(p);
      var m := FromEntries(p);
      var r := FromEntries(es);
      assert r == Set(m, x.0, x.1);
      var ks := KeysOf(p);
      KeysOfSnoc(es);
      forall k | k in KeysOf(es)
        ensures k in r.entries && r.entries[k] == es[LastIndex(KeysOf(es), k)].1
      {
        LastIndexAppend(ks, x.0, k);
        if k != x.0 {
          assert es[LastIndex(ks, k)] == p[LastIndex(ks, k)];
        }
      }
    }
  }

  /** Appending an occurrence to `ks` leaves first occurrences of earlier keys where they were. */
  lemma {:induction false} OrderAppendOld<K>(keys: seq<K>, ks: seq<K>, x: K)
    requires InFirstOccurrenceOrder(keys, ks)
    ensures InFirstOccurrenceOrder(keys, ks + [x])
  {
    forall i, j | 0 <= i < j < |keys|
      ensures FirstIndex(ks + [x], keys[i]) < FirstIndex(ks + [x], keys[j])
    {
      FirstIndexAppend(ks, x, keys[i]);
      FirstIndexAppend(ks, x, keys[j]);
    }
  }

  /** A key that first occurs at the end of `ks + [x]` may be listed after all others. */
  lemma {:induction false} OrderAppendNew<K>(keys: seq<K>, ks: seq<K>, x: K)
    requires InFirstOccurrenceOrder(keys, ks)
    requires x !in ks
    ensures InFirstOccurrenceOrder(keys + [x], ks + [x])
  {
    var keys' := keys + [x];
    var ks' := ks + [x];
    OrderAppendOld(keys, ks, x);
    forall i, j | 0 <= i < j < |keys'|
      ensures FirstIndex(ks', keys'[i]) < FirstIndex(ks', keys'[j])
    {
      assert keys'[i] == keys[i];
      FirstIndexAppend(ks, x, keys[i]);
      if j == |keys| {
        assert FirstIndex(ks', x) == |ks|;
      } else {
        assert keys'[j] == keys[j];
      }
    }
  }

  /** The keys of `new Map(es)` are listed in order of their first occurrence in `es`. */
  lemma {:induction false} FromEntriesFirstOrder<K, V>(es: seq<(K, V)>)
    ensures InFirstOccurrenceOrder(FromEntries(es).keys, KeysOf(es))
    decreases |es|
  {
    if |es| > 0 {
      var p := es[..|es| - 1];
      var x := es[|es| - 1];
      FromEntriesFirstOrder(p);
      FromEntriesKeys(p);
      var m := FromEntries(p);
      var ks := KeysOf(p);
      assert FromEntries(es) == Set(m, x.0, x.1);
      KeysOfSnoc(es);
      if x.0 in m.entries {
        OrderAppendOld(m.keys, ks, x.0);
        assert FromEntries(es).keys == m.keys;
      } else {
        assert x.0 !in m.keys;
        assert x.0 !in ks;
        OrderAppendNew(m.keys, ks, x.0);
        assert FromEntries(es).keys == m.keys + [x.0];
      }
    }
  }

  /** When the keys of `es` are already distinct, `new Map(es)` lists them in `es` order
      and its values are the values of `es`, unchanged. */
  lemma {:induction false} FromEntriesDistinct<K, V>(es: seq<(K, V)>)
    requires forall i, j :: 0 <= i < j < |es| ==> es[i].0 != es[j].0
    ensures FromEntries(es).keys == KeysOf(es)
    ensures forall i :: 0 <= i < |es| ==> Values(FromEntries(es))[i] == es[i].1
    decreases |es|
  {
    if |es| > 0 {
      var p := es[..|es| - 1];
      var x := es[|es| - 1];
      FromEntriesDistinct(p);
      FromEntriesKeys(p);
      var m := FromEntries(p);
      var r := FromEntries(es);
      assert r == Set(m, x.0, x.1);
      assert x.0 !in KeysOf(p) by {
        forall i | 0 <= i < |p| ensures KeysOf(p)[i] != x.0 {
          assert es[i].0 != es[|es| - 1].0;
        }
      }
      assert x.0 !in m.entries;
      assert r.keys == m.keys + [x.0];
      KeysOfSnoc(es);
      forall i | 0 <= i < |es|
        ensures Values(r)[i] == es[i].1
      {
        if i < |p| {
          assert r.keys[i] == m.keys[i] && m.keys[i] != x.0;
          assert Values(m)[i] == p[i].1;
        }
      }
    }
  }

  /** `new Map(es)` never holds more keys than `es` has entries. */
  lemma {:induction false} FromEntriesSize<K, V>(es: seq<(K, V)>)
    ensures |FromEntries(es).keys| <= |es|
    decreases |es|
  {
    if |es| > 0 {
      FromEntriesSize(es[..|es| - 1]);
    }
  }
}
