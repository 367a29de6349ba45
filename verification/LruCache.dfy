/**
 The LRU cache of libhv: a list of nodes, most recently used first, and a hash map from keys to
 list iterators, changed together. An iterator is modelled as the handle of its node: it
 stays the same while the node moves through the list. The mutex makes every operation
 one step.
 */
module LruCache {
  import opened Sequences
  import opened EntrySpec
  import opened Recency

  datatype Option<T> = None | Some(value: T)

  datatype Node<K, V> = Node(handle: nat, key: K, value: V)

  function RemoveAt<T>(xs: seq<T>, i: nat): (ys: seq<T>)
    requires i < |xs|
    ensures |ys| == |xs| - 1
    ensures forall j :: 0 <= j < |ys| ==> ys[j] == if j < i then xs[j] else xs[j + 1]
  {
    xs[..i] + xs[i + 1..]
  }

  function ToFront<T>(xs: seq<T>, i: nat): (ys: seq<T>)
    requires i < |xs|
    ensures |ys| == |xs|
  {
    [xs[i]] + RemoveAt(xs, i)
  }

  function EntriesOf<K, V>(list: seq<Node<K, V>>): (es: seq<Entry<K, V>>)
    ensures |es| == |list|
    ensures forall i :: 0 <= i < |es| ==> es[i] == Entry(list[i].key, list[i].value)
  {
    seq(|list|, i requires 0 <= i < |list| => Entry(list[i].key, list[i].value))
  }

  function KeysOf<K, V>(es: seq<Entry<K, V>>): (ks: seq<K>)
    ensures |ks| == |es|
    ensures forall i :: 0 <= i < |es| ==> ks[i] == es[i].key
  {
    seq(|es|, i requires 0 <= i < |es| => es[i].key)
  }

  ghost predicate HasKey<K, V>(list: seq<Node<K, V>>, k: K) {
    exists i :: 0 <= i < |list| && list[i].key == k
  }

  ghost predicate Unique<K, V>(list: seq<Node<K, V>>) {
    forall i, j :: 0 <= i < |list| && 0 <= j < |list| && i != j ==>
                     list[i].key != list[j].key && list[i].handle != list[j].handle
  }

  lemma {:induction false} RemoveAtUnique<K, V>(list: seq<Node<K, V>>, i: nat)
    requires Unique(list) && i < |list|
    ensures Unique(RemoveAt(list, i))
    ensures forall j :: 0 <= j < |list| - 1 ==>
                          RemoveAt(list, i)[j].key != list[i].key && RemoveAt(list, i)[j].handle != list[i].handle
  {
  }

  lemma {:induction false} ConsUnique<K, V>(n: Node<K, V>, list: seq<Node<K, V>>)
    requires Unique(list) && forall j :: 0 <= j < |list| ==> list[j].key != n.key && list[j].handle != n.handle
    ensures Unique([n] + list)
  {
  }

  /** List and map hold the same distinct keys, and every map entry points at its own node. */
  ghost predicate Linked<K, V>(list: seq<Node<K, V>>, table: map<K, nat>, next: nat) {
    && Unique(list)
    && (forall i :: 0 <= i < |list| ==>
          list[i].handle < next && list[i].key in table && table[list[i].key] == list[i].handle)
    && (forall k :: k in table ==> HasKey(list, k))
  }

  // ------------------------------------------------------------------ what the list operations keep

  lemma {:induction false} ToFrontHasKey<K, V>(list: seq<Node<K, V>>, i: nat, k: K)
    requires i < |list| && HasKey(list, k)
    ensures HasKey(ToFront(list, i), k)
  {
    var j :| 0 <= j < |list| && list[j].key == k;
    assert ToFront(list, i)[if j == i then 0 else if j < i then j + 1 else j].key == k;
  }

  lemma {:induction false} ToFrontLinked<K, V>(list: seq<Node<K, V>>, table: map<K, nat>, next: nat, i: nat)
    requires Linked(list, table, next) && i < |list|
    ensures Linked(ToFront(list, i), table, next)
  {
    hide Unique;
    var after := ToFront(list, i);
    RemoveAtUnique(list, i);
    ConsUnique(list[i], RemoveAt(list, i));
    forall k | k in table ensures HasKey(after, k) {
      assert HasKey(list, k);
      ToFrontHasKey(list, i, k);
    }
  }

  lemma {:induction false} DropLinked<K, V>(list: seq<Node<K, V>>, table: map<K, nat>, next: nat, i: nat)
    requires Linked(list, table, next) && i < |list|
    ensures Linked(RemoveAt(list, i), table - {list[i].key}, next)
  {
    hide Unique;
    var after := RemoveAt(list, i);
    RemoveAtUnique(list, i);
    forall k | k in table - {list[i].key} ensures HasKey(after, k) {
      assert HasKey(list, k);
      var j :| 0 <= j < |list| && list[j].key == k;
      assert after[if j < i then j else j - 1].key == k;
    }
  }

  lemma {:induction false} InsertLinked<K, V>(list: seq<Node<K, V>>, table: map<K, nat>, next: nat, k: K, v: V)
    requires Linked(list, table, next) && k !in table
    ensures Linked([Node(next, k, v)] + list, table[k := next], next + 1)
  {
    hide Unique;
    var after := [Node(next, k, v)] + list;
    ConsUnique(Node(next, k, v), list);
    assert after[0].key == k;
    forall x | x in table ensures HasKey(after, x) {
      assert HasKey(list, x);
      var j :| 0 <= j < |list| && list[j].key == x;
      assert after[j + 1].key == x;
    }
  }

  lemma {:induction false} UpdateLinked<K, V>(list: seq<Node<K, V>>, table: map<K, nat>, next: nat, i: nat, v: V)
    requires Linked(list, table, next) && i < |list|
    ensures Linked(list[i := list[i].(value := v)], table, next)
  {
    var after := list[i := list[i].(value := v)];
    forall k | k in table ensures HasKey(after, k) {
      assert HasKey(list, k);
      var j :| 0 <= j < |list| && list[j].key == k;
      assert after[j].key == k;
    }
  }

  // The operations on the list are the same operations on its entries.

  lemma {:induction false} EntriesToFront<K, V>(list: seq<Node<K, V>>, i: nat)
    requires i < |list|
    ensures EntriesOf(ToFront(list, i)) == ToFront(EntriesOf(list), i)
  {
  }

  lemma {:induction false} EntriesRemoveAt<K, V>(list: seq<Node<K, V>>, i: nat)
    requires i < |list|
    ensures EntriesOf(RemoveAt(list, i)) == RemoveAt(EntriesOf(list), i)
    ensures EntriesOf(list)[i] == Entry(list[i].key, list[i].value)
  {
  }

  lemma {:induction false} EntriesUpdate<K, V>(list: seq<Node<K, V>>, i: nat, v: V)
    requires i < |list|
    ensures EntriesOf(list[i := list[i].(value := v)]) == EntriesOf(list)[i := Entry(list[i].key, v)]
  {
  }

  lemma {:induction false} EntriesCons<K, V>(n: Node<K, V>, list: seq<Node<K, V>>)
    ensures EntriesOf([n] + list) == [Entry(n.key, n.value)] + EntriesOf(list)
  {
  }

  /** A key is in the map exactly if it is in the list, and the map leads to its node. */
  lemma {:induction false} Lookup<K, V>(list: seq<Node<K, V>>, table: map<K, nat>, next: nat, k: K)
    requires Linked(list, table, next)
    ensures DistinctKeys(EntriesOf(list))
    ensures k in table <==> IndexOf(EntriesOf(list), k) >= 0
    ensures k in table ==> list[IndexOf(EntriesOf(list), k)].handle == table[k]
    ensures forall i :: 0 <= i < |list| && k in table && list[i].handle == table[k] ==> i == IndexOf(EntriesOf(list), k)
  {
    assert k in table ==> HasKey(list, k);
    if HasKey(list, k) {
      var j :| 0 <= j < |list| && list[j].key == k;
      assert EntriesOf(list)[j].key == k;
    }
  }

  /** Every key ever added is cached, was reported to the callback, or left unreported. */
  ghost predicate Conserved<K, V>(
    es: seq<Entry<K, V>>, calls: seq<Entry<K, V>>, added: multiset<K>, silent: multiset<K>)
  {
    added == multiset(KeysOf(es)) + multiset(KeysOf(calls)) + silent
  }

  lemma {:induction false} KeysRemoveAt<K, V>(es: seq<Entry<K, V>>, i: nat)
    requires i < |es|
    ensures multiset(KeysOf(es)) == multiset(KeysOf(RemoveAt(es, i))) + multiset{es[i].key}
  {
    var ks := KeysOf(es);
    assert ks == ks[..i] + [ks[i]] + ks[i + 1..];
    assert KeysOf(RemoveAt(es, i)) == ks[..i] + ks[i + 1..];
  }

  lemma {:induction false} KeysCons<K, V>(e: Entry<K, V>, es: seq<Entry<K, V>>)
    ensures multiset(KeysOf([e] + es)) == multiset(KeysOf(es)) + multiset{e.key}
    ensures multiset(KeysOf(es + [e])) == multiset(KeysOf(es)) + multiset{e.key}
  {
    assert KeysOf([e] + es) == [e.key] + KeysOf(es);
    assert KeysOf(es + [e]) == KeysOf(es) + [e.key];
  }

  lemma {:induction false} DropConserved<K, V>(
    es: seq<Entry<K, V>>, calls: seq<Entry<K, V>>, added: multiset<K>, silent: multiset<K>, i: nat)
    requires Conserved(es, calls, added, silent) && i < |es|
    ensures Conserved(RemoveAt(es, i), calls + [es[i]], added, silent)
    ensures Conserved(RemoveAt(es, i), calls, added, silent + multiset{es[i].key})
  {
    KeysRemoveAt(es, i);
    KeysCons(es[i], calls);
  }

  lemma {:induction false} ToFrontConserved<K, V>(
    es: seq<Entry<K, V>>, calls: seq<Entry<K, V>>, added: multiset<K>, silent: multiset<K>, i: nat)
    requires Conserved(es, calls, added, silent) && i < |es|
    ensures Conserved(ToFront(es, i), calls, added, silent)
  {
    KeysRemoveAt(es, i);
    KeysCons(es[i], RemoveAt(es, i));
  }

  /** The entries that a predicate does not remove, in order. */
  function Kept<K, V>(es: seq<Entry<K, V>>, p: (K, V) -> bool): seq<Entry<K, V>> {
    if es == [] then []
    else
      var last := es[|es| - 1];
      Kept(es[..|es| - 1], p) + if p(last.key, last.value) then [] else [last]
  }

  /** The entries that a predicate removes, in order. */
  function Removed<K, V>(es: seq<Entry<K, V>>, p: (K, V) -> bool): seq<Entry<K, V>> {
    if es == [] then []
    else
      var last := es[|es| - 1];
      Removed(es[..|es| - 1], p) + if p(last.key, last.value) then [last] else []
  }

  /** The last entries in the order in which repeated eviction reports them: last first. */
  function Reversed<T>(xs: seq<T>): (ys: seq<T>)
    ensures |ys| == |xs|
  {
    if xs == [] then [] else [xs[|xs| - 1]] + Reversed(xs[..|xs| - 1])
  }

  class LruCache<K(==), V> {
    var capacity: nat
    var list: seq<Node<K, V>>
    var table: map<K, nat>
    var next: nat                         // handle of the next node
    var callback: bool                    // an eviction callback is set
    var calls: seq<Entry<K, V>>           // what it was called with
    ghost var added: multiset<K>          // every key ever inserted
    ghost var silent: multiset<K>         // keys that left while no callback was set

    /** The cached entries, most recently used first. */
    ghost function Entries(): seq<Entry<K, V>>
      reads this`list
    {
      EntriesOf(list)
    }

    ghost predicate Coherent()
      reads this`list, this`table, this`next, this`calls, this`added, this`silent
    {
      Linked(list, table, next) && Conserved(Entries(), calls, added, silent)
    }

    ghost predicate Valid()
      reads this
    {
      0 < capacity && |list| <= capacity && Coherent()
    }

    constructor (cap: nat)
      ensures Valid() && Entries() == [] && capacity == (if cap == 0 then 1 else cap)
      ensures added == multiset{} && calls == [] && silent == multiset{} && !callback
    {
      capacity := if cap == 0 then 1 else cap;
      list, table, next, callback, calls := [], map[], 0, false, [];
      added, silent := multiset{}, multiset{};
    }

    /** Follows an iterator: where the node with a handle stands in the list. */
    method Position(handle: nat) returns (i: nat)
      requires exists j :: 0 <= j < |list| && list[j].handle == handle
      ensures i < |list| && list[i].handle == handle
    {
      i := 0;
      while list[i].handle != handle
        invariant i < |list| && exists j :: i <= j < |list| && list[j].handle == handle
        decreases |list| - i
      {
        i := i + 1;
      }
    }

    /** move_to_front. */
    method MoveToFront(i: nat)
      requires Valid() && i < |list|
      modifies this`list
      ensures Valid() && Entries() == ToFront(old(Entries()), i) && list[0] == old(list[i])
    {
      hide Linked, Conserved, EntriesOf;
      ToFrontLinked(list, table, next, i);
      EntriesToFront(list, i);
      ToFrontConserved(Entries(), calls, added, silent, i);
      list := ToFront(list, i);
    }

    /** Erases a node from list and map and reports it. */
    method Drop(i: nat)
      requires Coherent() && i < |list|
      modifies this`list, this`table, this`calls, this`silent
      ensures Coherent() && Entries() == RemoveAt(old(Entries()), i)
      ensures calls == if callback then old(calls) + [old(Entries())[i]] else old(calls)
      ensures callback ==> silent == old(silent)
    {
      hide Linked, Conserved, EntriesOf, RemoveAt;
      var e := Entry(list[i].key, list[i].value);
      DropLinked(list, table, next, i);
      EntriesRemoveAt(list, i);
      DropConserved(Entries(), calls, added, silent, i);
      if callback {
        calls := calls + [e];
      } else {
        silent := silent + multiset{e.key};
      }
      table := table - {e.key};
      list := RemoveAt(list, i);
    }

    /** evict_lru. */
    method EvictLru()
      requires Coherent()
      modifies this`list, this`table, this`calls, this`silent
      ensures Coherent()
      ensures var es := old(Entries());
              if es == [] then Entries() == es && calls == old(calls)
              else Entries() == es[..|es| - 1] && calls == if callback then old(calls) + [es[|es| - 1]] else old(calls)
      ensures callback ==> silent == old(silent)
    {
      hide LruCache.Coherent;
      if list == [] {
        return;
      }
      assert RemoveAt(Entries(), |list| - 1) == Entries()[..|list| - 1];
      hide RemoveAt, EntriesOf;
      Drop(|list| - 1);
    }

    method Insert(k: K, v: V)
      requires Valid() && |list| < capacity && k !in table
      modifies this`list, this`table, this`next, this`added
      ensures Valid() && Entries() == [Entry(k, v)] + old(Entries())
      ensures added == old(added) + multiset{k}
    {
      hide Linked, EntriesOf, KeysOf;
      InsertLinked(list, table, next, k, v);
      EntriesCons(Node(next, k, v), list);
      KeysCons(Entry(k, v), Entries());
      list := [Node(next, k, v)] + list;
      table := table[k := next];
      next := next + 1;
      added := added + multiset{k};
    }

    method SetValue(i: nat, v: V)
      requires Valid() && i < |list|
      modifies this`list
      ensures Valid() && Entries() == old(Entries())[i := Entry(old(list[i].key), v)]
      ensures |list| == |old(list)|
    {
      hide Linked;
      UpdateLinked(list, table, next, i, v);
      EntriesUpdate(list, i, v);
      assert KeysOf(Entries()[i := Entry(list[i].key, v)]) == KeysOf(Entries());
      list := list[i := list[i].(value := v)];
    }

    /** get: a hit moves the entry to the front. */
    method Get(k: K) returns (r: Option<V>)
      requires Valid()
      modifies this`list
      ensures Valid()
      ensures var es := old(Entries());
              var i := IndexOf(es, k);
              if i < 0 then r == None && Entries() == es
              else r == Some(es[i].value) && Entries() == ToFront(es, i)
    {
      hide Linked, Conserved;
      Lookup(list, table, next, k);
      if k !in table {
        return None;
      }
      var i := Position(table[k]);
      MoveToFront(i);
      r := Some(list[0].value);
    }

    /** put for a key that is cached. */
    method PutOld(k: K, v: V)
      requires Valid() && k in table
      modifies this`list
      ensures Valid() && IndexOf(old(Entries()), k) >= 0
      ensures Entries() == [Entry(k, v)] + RemoveAt(old(Entries()), IndexOf(old(Entries()), k))
    {
      hide Linked, Conserved;
      Lookup(list, table, next, k);
      ghost var es := Entries();
      var i := Position(table[k]);
      SetValue(i, v);
      assert ToFront(es[i := Entry(k, v)], i) == [Entry(k, v)] + RemoveAt(es, i);
      hide ToFront, RemoveAt, EntriesOf, IndexOf;
      MoveToFront(i);
    }

    /** Evicts an entry if the cache is full; `k` stays absent. */
    method MakeRoom(k: K)
      requires Valid() && k !in table
      modifies this`list, this`table, this`calls, this`silent
      ensures Valid() && |list| < capacity && k !in table && IndexOf(old(Entries()), k) < 0
      ensures var es := old(Entries());
              if |es| < capacity then Entries() == es && calls == old(calls)
              else Entries() == es[..|es| - 1] && calls == if callback then old(calls) + [es[|es| - 1]] else old(calls)
      ensures callback ==> silent == old(silent)
    {
      hide Linked, Conserved, EntriesOf;
      Lookup(list, table, next, k);
      if |list| >= capacity {
        StillAbsent(Entries(), k);
        EvictLru();
        Lookup(list, table, next, k);
      }
    }

    /** put for a new key: the least recently used entry may have to go. */
    method PutNew(k: K, v: V)
      requires Valid() && k !in table
      modifies this
      ensures Valid() && capacity == old(capacity) && callback == old(callback) && IndexOf(old(Entries()), k) < 0
      ensures var es := old(Entries());
              if |es| < capacity then Entries() == [Entry(k, v)] + es && calls == old(calls)
              else Entries() == [Entry(k, v)] + es[..|es| - 1]
                   && calls == if callback then old(calls) + [es[|es| - 1]] else old(calls)
      ensures added == old(added) + multiset{k}
      ensures callback ==> silent == old(silent)
    {
      hide LruCache.Coherent, EntriesOf;
      MakeRoom(k);
      hide IndexOf;
      Insert(k, v);
    }

    /** put: true if the key is new. */
    method Put(k: K, v: V) returns (isNew: bool)
      requires Valid()
      modifies this
      ensures Valid() && capacity == old(capacity) && callback == old(callback)
      ensures isNew <==> IndexOf(old(Entries()), k) < 0
      ensures var es := old(Entries());
              var i := IndexOf(es, k);
              if i >= 0 then Entries() == [Entry(k, v)] + RemoveAt(es, i) && calls == old(calls)
              else if |es| < capacity then Entries() == [Entry(k, v)] + es && calls == old(calls)
              else Entries() == [Entry(k, v)] + es[..|es| - 1]
                   && calls == if callback then old(calls) + [es[|es| - 1]] else old(calls)
      ensures added == old(added) + if isNew then multiset{k} else multiset{}
      ensures callback ==> silent == old(silent)
    {
      hide LruCache.Valid, EntriesOf, RemoveAt;
      if k in table {
        PutOld(k, v);
        isNew := false;
      } else {
        PutNew(k, v);
        isNew := true;
      }
    }

    /** remove. */
    method Remove(k: K) returns (found: bool)
      requires Valid()
      modifies this`list, this`table, this`calls, this`silent
      ensures Valid()
      ensures var es := old(Entries());
              var i := IndexOf(es, k);
              && (found <==> i >= 0)
              && (found ==> Entries() == RemoveAt(es, i) && calls == if callback then old(calls) + [es[i]] else old(calls))
              && (!found ==> Entries() == es && calls == old(calls))
      ensures callback ==> silent == old(silent)
    {
      hide Linked, Conserved;
      Lookup(list, table, next, k);
      if k !in table {
        return false;
      }
      var i := Position(table[k]);
      Drop(i);
      found := true;
    }

    /** set_capacity: the least recently used entries go until the rest fits. */
    method SetCapacity(cap: nat)
      requires Valid()
      modifies this`capacity, this`list, this`table, this`calls, this`silent
      ensures Valid() && capacity == (if cap == 0 then 1 else cap)
      ensures |list| == if |old(list)| < capacity then |old(list)| else capacity
      ensures Shortened(old(Entries()), Entries(), old(calls), calls, callback)
      ensures callback ==> silent == old(silent)
    {
      hide LruCache.Coherent, EntriesOf, Shortened, Reversed;
      ghost var es, before, reports := Entries(), calls, callback;
      capacity := if cap == 0 then 1 else cap;
      ShortenStart(es, before, reports);
      while |list| > capacity
        invariant Coherent() && capacity == (if cap == 0 then 1 else cap)
        invariant |list| <= |es| && (|list| < |es| ==> |list| >= capacity)
        invariant Shortened(es, Entries(), before, calls, reports)
        invariant callback ==> silent == old(silent)
        decreases |list|
      {
        ShortenStep(es, Entries(), before, calls, reports);
        EvictLru();
      }
    }

    /** clear: everything is reported, front first. */
    method Clear()
      requires Valid()
      modifies this`list, this`table, this`calls, this`silent
      ensures Valid() && Entries() == []
      ensures calls == if callback then old(calls) + old(Entries()) else old(calls)
      ensures callback ==> silent == old(silent)
    {
      hide Linked, Conserved;
      ClearConserved(Entries(), calls, added, silent);
      ghost var es := Entries();
      var reported := calls;
      if callback {
        for i := 0 to |list|
          invariant reported == calls + es[..i]
        {
          reported := reported + [Entry(list[i].key, list[i].value)];
        }
        assert es[..|list|] == es;
      } else {
        silent := silent + multiset(KeysOf(es));
      }
      calls := reported;
      list, table := [], map[];
      NothingLinked<K, V>(next);
      assert Entries() == [];
    }

    /** remove_if: what is left is what the predicate keeps, and what it removes is reported, both in order. */
    method RemoveIf(p: (K, V) -> bool) returns (removed: nat)
      requires Valid()
      modifies this`list, this`table, this`calls, this`silent
      ensures Valid() && Entries() == Kept(old(Entries()), p)
      ensures calls == if callback then old(calls) + Removed(old(Entries()), p) else old(calls)
      ensures removed == |old(Entries())| - |Entries()|
      ensures callback ==> silent == old(silent)
    {
      hide LruCache.Coherent, Sifted, Kept, Removed, EntriesOf, RemoveAt;
      removed := 0;
      ghost var es, before, reports := Entries(), calls, callback;
      var i := 0;
      SiftStart(es, p, before, reports);
      while i < |list|
        invariant Coherent() && i <= |list| <= |es| && removed == |es| - |list|
        invariant Sifted(es, Entries(), i, p, before, calls, reports)
        invariant callback ==> silent == old(silent)
        decreases |list| - i
      {
        SiftStep(es, Entries(), i, p, before, calls, reports);
        if p(list[i].key, list[i].value) {
          Drop(i);
          removed := removed + 1;
        } else {
          i := i + 1;
        }
      }
      SiftEnd(es, Entries(), p, before, calls, reports);
    }
  }

  /** Some of the last entries are gone and were reported, last first. */
  ghost predicate Shortened<K, V>(
    es: seq<Entry<K, V>>, now: seq<Entry<K, V>>, before: seq<Entry<K, V>>, calls: seq<Entry<K, V>>, reports: bool)
  {
    && |now| <= |es| && now == es[..|now|]
    && calls == if reports then before + Reversed(es[|now|..]) else before
  }

  lemma {:induction false} ShortenStart<K, V>(es: seq<Entry<K, V>>, before: seq<Entry<K, V>>, reports: bool)
    ensures Shortened(es, es, before, before, reports)
  {
    assert es[|es|..] == [];
  }

  lemma {:induction false} ShortenStep<K, V>(
    es: seq<Entry<K, V>>, now: seq<Entry<K, V>>, before: seq<Entry<K, V>>, calls: seq<Entry<K, V>>, reports: bool)
    requires Shortened(es, now, before, calls, reports) && now != []
    ensures Shortened(es, now[..|now| - 1], before, if reports then calls + [now[|now| - 1]] else calls, reports)
  {
    ReversedCons(es, |now| - 1);
  }

  /**
   The first `i` entries are what is kept of the entries seen so far, the others have not been
   seen, and the calls report what was removed.
   */
  ghost predicate Sifted<K, V>(
    es: seq<Entry<K, V>>, now: seq<Entry<K, V>>, i: nat, p: (K, V) -> bool,
    before: seq<Entry<K, V>>, calls: seq<Entry<K, V>>, reports: bool)
  {
    && i <= |now| <= |es|
    && var n := |es| - (|now| - i);
    && now == Kept(es[..n], p) + es[n..] && |Kept(es[..n], p)| == i
    && calls == if reports then before + Removed(es[..n], p) else before
  }

  lemma {:induction false} SiftStart<K, V>(es: seq<Entry<K, V>>, p: (K, V) -> bool, before: seq<Entry<K, V>>, reports: bool)
    ensures Sifted(es, es, 0, p, before, before, reports)
  {
    assert es[..0] == [] && [] + es[0..] == es;
  }

  lemma {:induction false} KeptSnoc<K, V>(es: seq<Entry<K, V>>, n: nat, p: (K, V) -> bool)
    requires n < |es|
    ensures Kept(es[..n + 1], p) == if p(es[n].key, es[n].value) then Kept(es[..n], p) else Kept(es[..n], p) + [es[n]]
    ensures Removed(es[..n + 1], p) == if p(es[n].key, es[n].value) then Removed(es[..n], p) + [es[n]] else Removed(es[..n], p)
  {
    assert es[..n + 1][..n] == es[..n];
  }

  lemma {:induction false} RemoveMiddle<T>(xs: seq<T>, y: T, ys: seq<T>)
    ensures RemoveAt(xs + ([y] + ys), |xs|) == xs + ys
    ensures xs + ([y] + ys) == (xs + [y]) + ys
  {
  }

  lemma {:induction false} SiftStep<K, V>(
    es: seq<Entry<K, V>>, now: seq<Entry<K, V>>, i: nat, p: (K, V) -> bool,
    before: seq<Entry<K, V>>, calls: seq<Entry<K, V>>, reports: bool)
    requires Sifted(es, now, i, p, before, calls, reports) && i < |now|
    ensures if p(now[i].key, now[i].value)
            then Sifted(es, RemoveAt(now, i), i, p, before, if reports then calls + [now[i]] else calls, reports)
            else Sifted(es, now, i + 1, p, before, calls, reports)
  {
    hide Kept, Removed, RemoveAt;
    var n := |es| - (|now| - i);
    KeptSnoc(es, n, p);
    assert now[i] == es[n];
    assert es[n..] == [es[n]] + es[n + 1..];
    RemoveMiddle(Kept(es[..n], p), es[n], es[n + 1..]);
  }

  lemma {:induction false} SiftEnd<K, V>(
    es: seq<Entry<K, V>>, now: seq<Entry<K, V>>, p: (K, V) -> bool,
    before: seq<Entry<K, V>>, calls: seq<Entry<K, V>>, reports: bool)
    requires Sifted(es, now, |now|, p, before, calls, reports)
    ensures now == Kept(es, p) && calls == if reports then before + Removed(es, p) else before
  {
    assert es[..|es|] == es && es[|es|..] == [];
  }

  lemma {:induction false} ClearConserved<K, V>(
    es: seq<Entry<K, V>>, calls: seq<Entry<K, V>>, added: multiset<K>, silent: multiset<K>)
    requires Conserved(es, calls, added, silent)
    ensures Conserved([], calls + es, added, silent)
    ensures Conserved([], calls, added, silent + multiset(KeysOf(es)))
  {
    assert KeysOf(calls + es) == KeysOf(calls) + KeysOf(es);
  }

  lemma {:induction false} NothingLinked<K, V>(next: nat)
    ensures Linked<K, V>([], map[], next)
  {
  }

  lemma {:induction false} KeysToFront<K, V>(es: seq<Entry<K, V>>, i: nat)
    requires DistinctKeys(es) && i < |es|
    ensures KeysOf(ToFront(es, i)) == [es[i].key] + Without(KeysOf(es), es[i].key)
  {
    var ks := KeysOf(es);
    assert NoDup(ks);
    WithoutIsRemoveAt(ks, i);
    assert KeysOf(RemoveAt(es, i)) == ks[..i] + ks[i + 1..];
  }

  /** Demand filling: a lookup, and an insertion if it misses, is one access of the recency list. */
  method Demand<K(==), V>(c: LruCache<K, V>, k: K, v: V) returns (hit: bool)
    requires c.Valid()
    modifies c
    ensures c.Valid() && c.capacity == old(c.capacity)
    ensures KeysOf(c.Entries()) == Access(old(KeysOf(c.Entries())), c.capacity, k)
    ensures hit <==> k in old(KeysOf(c.Entries()))
  {
    ghost var es := c.Entries();
    KeyPresent(es, k);
    assert DistinctKeys(es) by {
      Lookup(c.list, c.table, c.next, k);
    }
    hide LruCache.Valid, EntriesOf, Without, IndexOf;
    var r := c.Get(k);
    hit := r.Some?;
    if hit {
      KeysToFront(es, IndexOf(es, k));
    } else {
      var isNew := c.Put(k, v);
      KeysAfterMiss(es, k, v);
    }
  }

  lemma {:induction false} KeyPresent<K, V>(es: seq<Entry<K, V>>, k: K)
    ensures k in KeysOf(es) <==> IndexOf(es, k) >= 0
  {
  }

  lemma {:induction false} KeysAfterMiss<K, V>(es: seq<Entry<K, V>>, k: K, v: V)
    ensures KeysOf([Entry(k, v)] + es) == [k] + KeysOf(es)
    ensures es != [] ==> KeysOf([Entry(k, v)] + es[..|es| - 1]) == [k] + KeysOf(es)[..|es| - 1]
  {
  }

  lemma {:induction false} StillAbsent<K, V>(es: seq<Entry<K, V>>, k: K)
    requires IndexOf(es, k) < 0 && es != []
    ensures IndexOf(es[..|es| - 1], k) < 0
  {
  }

  lemma {:induction false} ReversedCons<T>(xs: seq<T>, n: nat)
    requires n < |xs|
    ensures Reversed(xs[n..]) == Reversed(xs[n + 1..]) + [xs[n]]
  {
    var ys := xs[n..];
    if |ys| == 1 {
      assert xs[n + 1..] == [];
    } else {
      var init := xs[..|xs| - 1];
      ReversedCons(init, n);
      assert init[n..] == ys[..|ys| - 1] && init[n + 1..] == xs[n + 1..][..|ys| - 2];
    }
  }
}
