/**
 What the map operations mean: a sequence of entries with distinct keys, and
 the finite map that it represents.
 */
module EntrySpec {

  datatype Entry<K, V> = Entry(key: K, value: V)

  ghost predicate DistinctKeys<K, V>(es: seq<Entry<K, V>>) {
    forall i, j :: 0 <= i < j < |es| ==> es[i].key != es[j].key
  }

  /** The position of a key, or -1. */
  function IndexOf<K(==), V>(es: seq<Entry<K, V>>, key: K): (i: int)
    ensures -1 <= i < |es|
    ensures i >= 0 ==> es[i].key == key
    ensures i < 0 <==> forall j :: 0 <= j < |es| ==> es[j].key != key
  {
    if es == [] then -1
    else if es[|es| - 1].key == key then |es| - 1
    else IndexOf(es[..|es| - 1], key)
  }

  /** A present key is updated in place, a new key is appended. */
  function PutEntry<K(==), V>(es: seq<Entry<K, V>>, key: K, value: V): seq<Entry<K, V>> {
    var i := IndexOf(es, key);
    if i >= 0 then es[i := Entry(key, value)] else es + [Entry(key, value)]
  }

  /** The last entry moves into the hole. */
  function DeleteEntry<K(==), V>(es: seq<Entry<K, V>>, key: K): seq<Entry<K, V>> {
    var i := IndexOf(es, key);
    if i < 0 then es else es[i := es[|es| - 1]][..|es| - 1]
  }

  lemma {:induction false} IndexOfIs<K, V>(es: seq<Entry<K, V>>, i: nat, key: K)
    requires DistinctKeys(es) && i < |es| && es[i].key == key
    ensures IndexOf(es, key) == i
  {
  }

  lemma {:induction false} AppendNewKey<K, V>(es: seq<Entry<K, V>>, key: K, value: V)
    requires DistinctKeys(es) && IndexOf(es, key) < 0
    ensures DistinctKeys(es + [Entry(key, value)])
    ensures PutEntry(es, key, value) == es + [Entry(key, value)]
    ensures IndexOf(PutEntry(es, key, value), key) == |es|
  {
  }

  lemma {:induction false} UpdateOldKey<K, V>(es: seq<Entry<K, V>>, i: nat, key: K, value: V)
    requires DistinctKeys(es) && i < |es| && es[i].key == key
    ensures DistinctKeys(es[i := Entry(key, value)])
    ensures PutEntry(es, key, value) == es[i := Entry(key, value)]
    ensures IndexOf(PutEntry(es, key, value), key) == i
  {
    IndexOfIs(es, i, key);
    IndexOfIs(es[i := Entry(key, value)], i, key);
  }

  lemma {:induction false} SwapDelete<K, V>(es: seq<Entry<K, V>>, i: nat, key: K)
    requires DistinctKeys(es) && i < |es| && es[i].key == key
    ensures DeleteEntry(es, key) == es[i := es[|es| - 1]][..|es| - 1]
    ensures DistinctKeys(DeleteEntry(es, key))
  {
    IndexOfIs(es, i, key);
  }

  ghost function AsMap<K, V>(es: seq<Entry<K, V>>): (m: map<K, V>)
    ensures forall k :: k in m ==> exists i :: 0 <= i < |es| && es[i].key == k
    ensures forall i :: 0 <= i < |es| ==> es[i].key in m
  {
    if es == [] then map[]
    else
      var rest := es[..|es| - 1];
      var m := AsMap(rest)[es[|es| - 1].key := es[|es| - 1].value];
      assert forall k :: k in m ==> exists i :: 0 <= i < |es| && es[i].key == k by {
        forall k | k in m ensures exists i :: 0 <= i < |es| && es[i].key == k {
          if k in AsMap(rest) {
            var i :| 0 <= i < |rest| && rest[i].key == k;
            assert es[i].key == k;
          } else {
            assert es[|es| - 1].key == k;
          }
        }
      }
      assert forall i :: 0 <= i < |es| ==> es[i].key in m by {
        forall i | 0 <= i < |es| ensures es[i].key in m {
          if i < |es| - 1 {
            assert rest[i].key == es[i].key;
          }
        }
      }
      m
  }

  lemma {:induction false} AsMapAt<K, V>(es: seq<Entry<K, V>>, i: nat)
    requires DistinctKeys(es) && i < |es|
    ensures es[i].key in AsMap(es) && AsMap(es)[es[i].key] == es[i].value
  {
    var last := |es| - 1;
    if i < last {
      AsMapAt(es[..last], i);
      assert es[..last][i] == es[i];
    }
  }

  /** With distinct keys the map is determined by the entries it is made of. */
  lemma {:induction false} AsMapIs<K, V>(es: seq<Entry<K, V>>, m: map<K, V>)
    requires DistinctKeys(es)
    requires forall k :: k in m ==> exists i :: 0 <= i < |es| && es[i].key == k
    requires forall i :: 0 <= i < |es| ==> es[i].key in m && m[es[i].key] == es[i].value
    ensures AsMap(es) == m
  {
    forall k | k in AsMap(es) ensures k in m && m[k] == AsMap(es)[k] {
      var i :| 0 <= i < |es| && es[i].key == k;
      AsMapAt(es, i);
    }
    assert AsMap(es).Keys == m.Keys;
  }

  lemma {:induction false} PutIsMapUpdate<K, V>(es: seq<Entry<K, V>>, key: K, value: V)
    requires DistinctKeys(es)
    ensures DistinctKeys(PutEntry(es, key, value))
    ensures AsMap(PutEntry(es, key, value)) == AsMap(es)[key := value]
  {
    hide AsMap;
    var fs := PutEntry(es, key, value);
    var m := AsMap(es)[key := value];
    var at := if IndexOf(es, key) >= 0 then IndexOf(es, key) else |es|;
    assert fs[at].key == key;
    forall k | k in m ensures exists i :: 0 <= i < |fs| && fs[i].key == k {
      if k != key {
        var i :| 0 <= i < |es| && es[i].key == k;
        assert fs[i].key == k;
      }
    }
    forall i | 0 <= i < |fs| ensures fs[i].key in m && m[fs[i].key] == fs[i].value {
      if i != at {
        AsMapAt(es, i);
      }
    }
    AsMapIs(fs, m);
  }

  lemma {:induction false} DeleteIsMapRemoval<K, V>(es: seq<Entry<K, V>>, key: K)
    requires DistinctKeys(es)
    ensures DistinctKeys(DeleteEntry(es, key))
    ensures AsMap(DeleteEntry(es, key)) == AsMap(es) - {key}
  {
    hide AsMap;
    var fs := DeleteEntry(es, key);
    var m := AsMap(es) - {key};
    var at := IndexOf(es, key);
    if at < 0 {
      assert key !in AsMap(es);
    } else {
      var last := |es| - 1;
      forall k | k in m ensures exists i :: 0 <= i < |fs| && fs[i].key == k {
        var i :| 0 <= i < |es| && es[i].key == k;
        assert fs[if i == last then at else i].key == k;
      }
      forall i | 0 <= i < |fs| ensures fs[i].key in m && m[fs[i].key] == fs[i].value {
        AsMapAt(es, if i == at then last else i);
      }
      AsMapIs(fs, m);
    }
  }

  // ------------------------------------------------------------------ runs

  datatype Op<K, V> = Put(key: K, value: V) | Find(key: K) | Delete(key: K)

  function Apply<K(==), V>(es: seq<Entry<K, V>>, op: Op<K, V>): seq<Entry<K, V>> {
    match op
    case Put(k, v) => PutEntry(es, k, v)
    case Find(_) => es
    case Delete(k) => DeleteEntry(es, k)
  }

  /** What an operation reports: an index for a put or a lookup, 1 or 0 for a delete. */
  function Reply<K(==), V>(es: seq<Entry<K, V>>, op: Op<K, V>): int {
    match op
    case Put(k, v) => IndexOf(PutEntry(es, k, v), k)
    case Find(k) => IndexOf(es, k)
    case Delete(k) => if IndexOf(es, k) >= 0 then 1 else 0
  }

  function Run<K(==), V>(ops: seq<Op<K, V>>): seq<Entry<K, V>> {
    if ops == [] then [] else Apply(Run(ops[..|ops| - 1]), ops[|ops| - 1])
  }

  /** What the operations of a run report, one after the other. */
  function Replies<K(==), V>(ops: seq<Op<K, V>>): (r: seq<int>)
    ensures |r| == |ops|
  {
    if ops == [] then [] else Replies(ops[..|ops| - 1]) + [Reply(Run(ops[..|ops| - 1]), ops[|ops| - 1])]
  }

  ghost function RunMap<K, V>(ops: seq<Op<K, V>>): map<K, V> {
    if ops == [] then map[]
    else
      var m := RunMap(ops[..|ops| - 1]);
      match ops[|ops| - 1]
      case Put(k, v) => m[k := v]
      case Find(_) => m
      case Delete(k) => m - {k}
  }

  /** After every run the entries are the run's finite map, with every key once. */
  lemma {:induction false} RunIsFiniteMap<K, V>(ops: seq<Op<K, V>>)
    ensures DistinctKeys(Run(ops))
    ensures AsMap(Run(ops)) == RunMap(ops)
    ensures forall k :: IndexOf(Run(ops), k) >= 0 <==> k in RunMap(ops)
  {
    if ops != [] {
      var es := Run(ops[..|ops| - 1]);
      RunIsFiniteMap(ops[..|ops| - 1]);
      match ops[|ops| - 1]
      case Put(k, v) => PutIsMapUpdate(es, k, v);
      case Find(_) =>
      case Delete(k) => DeleteIsMapRemoval(es, k);
    }
  }
}
