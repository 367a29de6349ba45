/**
 Recency lists: the keys of a cache, most recently used first, and what an access does to
 them at a given capacity. An access is a lookup that is followed by an insertion if it misses.
 */
module Recency {
  import opened Sequences

  function Access<K(==)>(ks: seq<K>, capacity: nat, k: K): seq<K> {
    if k in ks then [k] + Without(ks, k)
    else [k] + if |ks| >= capacity && ks != [] then ks[..|ks| - 1] else ks
  }

  function Accesses<K(==)>(capacity: nat, trace: seq<K>): seq<K> {
    if trace == [] then [] else Access(Accesses(capacity, trace[..|trace| - 1]), capacity, trace[|trace| - 1])
  }

  /** How many accesses of a trace hit. */
  function Hits<K(==)>(capacity: nat, trace: seq<K>): nat {
    if trace == [] then 0
    else
      var init, k := trace[..|trace| - 1], trace[|trace| - 1];
      Hits(capacity, init) + if k in Accesses(capacity, init) then 1 else 0
  }

  function Top<K>(ks: seq<K>, c: nat): (t: seq<K>)
    ensures |t| <= c
  {
    if |ks| <= c then ks else ks[..c]
  }

  lemma {:induction false} AccessKeeps<K>(ks: seq<K>, capacity: nat, k: K)
    requires NoDup(ks) && |ks| <= capacity && capacity > 0
    ensures NoDup(Access(ks, capacity, k)) && |Access(ks, capacity, k)| <= capacity
  {
    hide Without;
    if k in ks {
      var i :| 0 <= i < |ks| && ks[i] == k;
      WithoutIsRemoveAt(ks, i);
      WithoutNoDup(ks, k);
      WithoutMembers(ks, k, k);
      NoDupJoin([k], Without(ks, k));
    } else {
      NoDupJoin([k], ks);
      if ks != [] {
        NoDupJoin([k], ks[..|ks| - 1]);
      }
    }
  }

  lemma {:induction false} AccessesKeep<K>(capacity: nat, trace: seq<K>)
    requires capacity > 0
    ensures NoDup(Accesses(capacity, trace)) && |Accesses(capacity, trace)| <= capacity
  {
    if trace != [] {
      AccessesKeep(capacity, trace[..|trace| - 1]);
      AccessKeeps(Accesses(capacity, trace[..|trace| - 1]), capacity, trace[|trace| - 1]);
    }
  }

  function Skip<K>(ks: seq<K>, i: nat): seq<K>
    requires i < |ks|
  {
    ks[..i] + ks[i + 1..]
  }

  /** Cutting off behind a removed item. */
  lemma {:induction false} SkipTop<K>(ks: seq<K>, i: nat, c: nat)
    requires i < c < |ks|
    ensures [ks[i]] + Skip(ks[..c], i) == ([ks[i]] + Skip(ks, i))[..c]
  {
  }

  lemma {:induction false} SkipFar<K>(ks: seq<K>, i: nat, c: nat)
    requires 0 < c <= i < |ks|
    ensures [ks[i]] + ks[..c][..c - 1] == ([ks[i]] + Skip(ks, i))[..c]
  {
  }

  lemma {:induction false} AccessHit<K>(ks: seq<K>, c: nat, i: nat)
    requires NoDup(ks) && i < |ks|
    ensures Access(ks, c, ks[i]) == [ks[i]] + Skip(ks, i)
  {
    WithoutIsRemoveAt(ks, i);
  }

  lemma {:induction false} AccessTopMiss<K>(ks: seq<K>, small: nat, large: nat, k: K)
    requires k !in ks && |ks| <= large && 0 < small <= large
    ensures Access(Top(ks, small), small, k) == Top(Access(ks, large, k), small)
  {
    hide Without;
    assert k !in Top(ks, small);
    if |ks| > small {
      assert [k] + ks[..small][..small - 1] == ([k] + ks)[..small];
    }
  }

  /** One access at a small capacity is the same access at a larger one, cut off. */
  lemma {:induction false} AccessTop<K>(ks: seq<K>, small: nat, large: nat, k: K)
    requires NoDup(ks) && |ks| <= large && 0 < small <= large
    ensures Access(Top(ks, small), small, k) == Top(Access(ks, large, k), small)
  {
    hide Without;
    var top := Top(ks, small);
    if k !in ks {
      AccessTopMiss(ks, small, large, k);
    } else {
      var i :| 0 <= i < |ks| && ks[i] == k;
      AccessHit(ks, large, i);
      AccessHit(ks, small, i);
      if |ks| > small && i < small {
        AccessHit(top, small, i);
        SkipTop(ks, i, small);
      } else if |ks| > small {
        assert k !in top;
        SkipFar(ks, i, small);
      }
    }
  }

  /** Inclusion: the list at a small capacity is the beginning of the list at any larger one. */
  lemma {:induction false} Inclusion<K>(small: nat, large: nat, trace: seq<K>)
    requires 0 < small <= large
    ensures Accesses(small, trace) == Top(Accesses(large, trace), small)
  {
    if trace != [] {
      var init, k := trace[..|trace| - 1], trace[|trace| - 1];
      Inclusion(small, large, init);
      AccessesKeep(large, init);
      AccessTop(Accesses(large, init), small, large, k);
    }
  }

  /** A larger cache never hits less often. */
  lemma {:induction false} HitsGrowWithCapacity<K>(small: nat, large: nat, trace: seq<K>)
    requires 0 < small <= large
    ensures Hits(small, trace) <= Hits(large, trace)
  {
    if trace != [] {
      var init, k := trace[..|trace| - 1], trace[|trace| - 1];
      HitsGrowWithCapacity(small, large, init);
      Inclusion(small, large, init);
    }
  }
}
