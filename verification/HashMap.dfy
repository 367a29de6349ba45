/**
 The stb_ds hash map: a dense sequence of entries and an open-addressing index over it.
 */
module HashMap {
  import opened ProbeOrder
  import opened HashTable
  import opened HashIndexing
  import opened EntrySpec

  ghost function Codes<K, V>(es: seq<Entry<K, V>>, hashBytes: (K, nat) -> nat, seed: nat): (c: seq<int>)
    ensures |c| == |es|
    ensures forall i :: 0 <= i < |es| ==> c[i] == StoredHash(hashBytes(es[i].key, seed))
  {
    seq(|es|, i requires 0 <= i < |es| => StoredHash(hashBytes(es[i].key, seed)))
  }

  /** The slots at which the search for a key ends. */
  ghost function Stops<K, V>(t: Table, es: seq<Entry<K, V>>, code: int, key: K): (stops: set<nat>)
    requires Shape(t)
    ensures EmptySlots(t) <= stops
  {
    set s | 0 <= s < |t.hash| && (t.hash[s] == HASH_EMPTY ||
                                  (t.hash[s] == code && 0 <= t.index[s] < |es| && es[t.index[s]].key == key))
  }

  /** A search that ends at an empty slot has missed no live entry. */
  lemma {:induction false} MissMeansAbsent<K, V>(
    t: Table, es: seq<Entry<K, V>>, codes: seq<int>, depth: seq<nat>, live: set<nat>, code: int, key: K, k: nat, s: nat)
    requires Indexed(t, codes, depth, live) && |es| == |codes|
    requires forall i :: i in live && es[i].key == key ==> codes[i] == code
    requires StopsAt(t, code, k, s, Stops(t, es, code, key)) && t.hash[s] == HASH_EMPTY
    ensures forall i :: i in live ==> es[i].key != key
  {
    forall i | i in live ensures es[i].key != key {
      if es[i].key == key {
        assert Placed(t, i, codes[i], depth[i]);
        EmptySlotEndsSearch(t, codes, depth, live, i, k);
      }
    }
  }

  lemma {:induction false} CodesAppend<K, V>(es: seq<Entry<K, V>>, e: Entry<K, V>, hashBytes: (K, nat) -> nat, seed: nat)
    ensures Codes(es + [e], hashBytes, seed) == Codes(es, hashBytes, seed) + [StoredHash(hashBytes(e.key, seed))]
  {
  }

  lemma {:induction false} CodesSameKeys<K, V>(es: seq<Entry<K, V>>, fs: seq<Entry<K, V>>, hashBytes: (K, nat) -> nat, seed: nat)
    requires |es| == |fs| && forall i :: 0 <= i < |es| ==> es[i].key == fs[i].key
    ensures Codes(es, hashBytes, seed) == Codes(fs, hashBytes, seed)
  {
  }

  lemma {:induction false} CodesSwapDelete<K, V>(es: seq<Entry<K, V>>, i: nat, hashBytes: (K, nat) -> nat, seed: nat)
    requires i < |es|
    ensures var last := |es| - 1;
            var codes := Codes(es, hashBytes, seed);
            Codes(es[i := es[last]][..last], hashBytes, seed) == codes[i := codes[last]][..last]
  {
  }

  /**
   What holds of an index, its counters and the entries: slots in use and entries are in
   bijection, every entry in `live` can be found, the counters count, and they stay within the
   thresholds. While a deletion is under way one tombstone may be in excess (`slack` is 1).
   */
  ghost predicate Counted(
    t: Table, used: nat, tombstones: nat, codes: seq<int>, depth: seq<nat>, live: set<nat>, slack: nat)
  {
    && |depth| == |codes| && Indexed(t, codes, depth, live)
    && used == Count(t.index, 0) && tombstones == Count(t.index, INDEX_DELETED)
    && used + slack <= UsedThreshold(|t.hash|) && tombstones <= TombstoneThreshold(|t.hash|) + slack
  }

  ghost predicate Sound<K, V>(
    t: Table, used: nat, tombstones: nat, es: seq<Entry<K, V>>, codes: seq<int>, depth: seq<nat>, slack: nat := 0)
  {
    used == |es| == |codes| && Counted(t, used, tombstones, codes, depth, UpTo(|es|), slack)
  }

  lemma {:induction false} CountedHasRoom(
    t: Table, used: nat, tombstones: nat, codes: seq<int>, depth: seq<nat>, live: set<nat>, slack: nat)
    requires Counted(t, used, tombstones, codes, depth, live, slack)
    ensures HasRoom(t)
    ensures forall s :: 0 <= s < |t.index| ==> t.index[s] < |codes|
  {
    ThresholdsLeaveRoom(|t.hash|);
  }

  /** Where a new entry goes: the remembered tombstone if there is one, else the empty slot. */
  function Target(slot: nat, tombstone: int): nat {
    if tombstone >= 0 then tombstone else slot
  }

  lemma {:induction false} AppendSound<K, V>(
    t: Table, used: nat, tombstones: nat, es: seq<Entry<K, V>>, codes: seq<int>, depth: seq<nat>,
    e: Entry<K, V>, code: int, slot: nat, tombstone: int, k: nat)
    returns (j: nat)
    requires Sound(t, used, tombstones, es, codes, depth) && used < UsedThreshold(|t.hash|)
    requires code >= 2 && k < |t.hash| && slot == SlotAt(t, code, k) && NoGap(t, code, k)
    requires t.hash[slot] == HASH_EMPTY && TombstoneOnPath(t, code, k, tombstone)
    ensures tombstone >= 0 ==> tombstones > 0
    ensures Target(slot, tombstone) < |t.hash| == |t.index|
    ensures Sound(Write(t, Target(slot, tombstone), code, |es|), used + 1, if tombstone >= 0 then tombstones - 1 else tombstones,
                  es + [e], codes + [code], depth + [j])
  {
    j := k;
    if tombstone >= 0 {
      j :| j < k && SlotAt(t, code, j) == tombstone;
    }
    var pos := Target(slot, tombstone);
    AppendKeeps(t, codes, depth, code, j);
    CountUpdate(t.index, pos, |es|, 0);
    CountUpdate(t.index, pos, |es|, INDEX_DELETED);
  }

  /** The first half of a deletion: a tombstone takes the place of entry `i`. */
  lemma {:induction false} TombstoneCounted(
    t: Table, used: nat, tombstones: nat, codes: seq<int>, depth: seq<nat>, s: nat)
    requires Counted(t, used, tombstones, codes, depth, UpTo(|codes|), 0)
    requires s < |t.index| && t.index[s] >= 0
    ensures used > 0 && t.index[s] in UpTo(|codes|)
    ensures Counted(Write(t, s, HASH_DELETED, INDEX_DELETED), used - 1, tombstones + 1,
                    codes, depth, UpTo(|codes|) - {t.index[s]}, 1)
  {
    TombstoneKeeps(t, codes, depth, UpTo(|codes|), t.index[s]);
    CountUpdate(t.index, s, INDEX_DELETED, 0);
    CountUpdate(t.index, s, INDEX_DELETED, INDEX_DELETED);
  }

  /** The second half when the last entry moves into the hole: its back-pointer is repaired. */
  lemma {:induction false} MoveCounted(
    t: Table, used: nat, tombstones: nat, codes: seq<int>, depth: seq<nat>, i: nat, s: nat)
    requires i < |codes| - 1 && Counted(t, used, tombstones, codes, depth, UpTo(|codes|) - {i}, 1)
    requires s < |t.index| && t.index[s] == |codes| - 1
    ensures var last := |codes| - 1;
            Counted(Write(t, s, t.hash[s], i), used, tombstones,
                    codes[i := codes[last]][..last], depth[i := depth[last]][..last], UpTo(last), 1)
  {
    var last := |codes| - 1;
    assert Placed(t, last, codes[last], depth[last]);
    SwapDeleteKeeps(t, codes, depth, i);
    CountUpdate(t.index, s, i, 0);
    CountUpdate(t.index, s, i, INDEX_DELETED);
  }

  lemma {:induction false} DropLastCounted(
    t: Table, used: nat, tombstones: nat, codes: seq<int>, depth: seq<nat>)
    requires |codes| > 0 && Counted(t, used, tombstones, codes, depth, UpTo(|codes|) - {|codes| - 1}, 1)
    ensures var last := |codes| - 1;
            Counted(t, used, tombstones, codes[..last], depth[..last], UpTo(last), 1)
  {
    DropLastKeeps(t, codes, depth);
  }

  /** In a table with a hole at `i`, the key of the last entry is found at the last entry. */
  lemma {:induction false} LastIsFound<K, V>(es: seq<Entry<K, V>>, i: nat, x: nat)
    requires DistinctKeys(es) && i < |es| - 1
    requires x < |es| && x != i && es[i := es[|es| - 1]][x].key == es[|es| - 1].key
    ensures x == |es| - 1
  {
  }

  lemma {:induction false} HoleCounted(
    t: Table, used: nat, tombstones: nat, codes: seq<int>, depth: seq<nat>, i: nat)
    requires i < |codes| && Counted(t, used, tombstones, codes, depth, UpTo(|codes|) - {i}, 1)
    ensures Counted(t, used, tombstones, codes[i := codes[|codes| - 1]], depth, UpTo(|codes|) - {i}, 1)
  {
    RelevantPartOnly(t, codes, depth, codes[i := codes[|codes| - 1]], depth, UpTo(|codes|) - {i});
  }

  lemma {:induction false} CodesMoveLast<K, V>(es: seq<Entry<K, V>>, i: nat, hashBytes: (K, nat) -> nat, seed: nat)
    requires i < |es|
    ensures var codes := Codes(es, hashBytes, seed);
            Codes(es[i := es[|es| - 1]], hashBytes, seed) == codes[i := codes[|es| - 1]]
  {
  }

  class HashMap<K(==), V> {
    const hashBytes: (K, nat) -> nat
    const firstSeed: nat       // what the library's global seed is when the first index is made
    var isAllocated: bool      // false models the NULL pointer
    var entries: seq<Entry<K, V>>
    var table: HashIndex?
    var temp: int              // the result of the last operation
    ghost var depth: seq<nat>

    ghost function Footprint(): (f: set<object>)
      reads this
    {
      if table == null then {this} else {this, table, table.hash, table.index}
    }

    ghost function MyCodes(): (c: seq<int>)
      requires table != null
      reads this
    {
      Codes(entries, hashBytes, table.seed)
    }

    ghost predicate Valid()
      reads this, Footprint()
    {
      && DistinctKeys(entries)
      && (!isAllocated ==> table == null)
      && (table == null ==> entries == [])
      && (table != null ==>
            table.Sized() && Sound(table.View(), table.usedCount, table.tombstoneCount, entries, MyCodes(), depth))
    }

    constructor (hashBytes: (K, nat) -> nat, seed: nat)
      ensures Valid() && fresh(Footprint())
      ensures entries == [] && !isAllocated && this.hashBytes == hashBytes
    {
      this.hashBytes := hashBytes;
      firstSeed := seed;
      isAllocated := false;
      entries := [];
      table := null;
      temp := 0;
      depth := [];
    }

    /**
     One run of a search over the bucket of `pos`: it ends at a match or at an empty slot, and
     remembers the first tombstone.
     */
    method ScanRun(pos: nat, lo: nat, hi: nat, code: int, key: K, tombstone: int) returns (z: nat, seen: int)
      requires table != null && table.Sized() && Shape(table.View()) && code >= 2
      requires forall s :: 0 <= s < table.slotCount ==> table.index[s] < |entries|
      requires pos < table.slotCount && lo <= hi <= BUCKET_LENGTH
      ensures lo <= z <= hi
      ensures RunAvoids(pos, lo, z, Stops(table.View(), entries, code, key))
      ensures z < hi ==> Place(pos, z) in Stops(table.View(), entries, code, key)
      ensures SeenInRun(table.View(), pos, lo, z, tombstone, seen)
    {
      hide Bucket, Count;
      SlotCountFacts(table.slotCount);
      z, seen := lo, tombstone;
      while z < hi
        invariant lo <= z <= hi
        invariant RunAvoids(pos, lo, z, Stops(table.View(), entries, code, key))
        invariant SeenInRun(table.View(), pos, lo, z, tombstone, seen)
      {
        var s := Place(pos, z);
        if table.hash[s] == code {
          if entries[table.index[s]].key == key {
            return;
          }
        } else if table.hash[s] == HASH_EMPTY {
          return;
        } else if seen < 0 {
          if table.index[s] == INDEX_DELETED {
            seen := s;
          }
        }
        z := z + 1;
      }
    }

    /** The probe loop of lookups and of insertions; a lookup ignores the tombstone. */
    method Probe(code: int, key: K) returns (slot: nat, tombstone: int, ghost k: nat)
      requires table != null && table.Sized() && Shape(table.View()) && HasRoom(table.View()) && code >= 2
      requires forall s :: 0 <= s < table.slotCount ==> table.index[s] < |entries|
      ensures StopsAt(table.View(), code, k, slot, Stops(table.View(), entries, code, key))
      ensures slot in Stops(table.View(), entries, code, key)
      ensures TombstoneOnPath(table.View(), code, k, tombstone)
    {
      hide Probing, Bucket, Count, Stops;
      SlotCountFacts(table.slotCount);
      ghost var t, stops, r: nat := table.View(), Stops(table.View(), entries, code, key), 0;
      var pos: nat, step := code % table.slotCount, BUCKET_LENGTH;
      tombstone := -1;
      ProbingStarts(t, code, stops);
      while true
        invariant step == BUCKET_LENGTH * (r + 1) && BUCKET_LENGTH * r < table.slotCount && pos < table.slotCount
        invariant Probing(t, code, pos, r, stops)
        invariant TombstoneOnPath(t, code, BUCKET_LENGTH * r, tombstone)
        decreases table.slotCount - BUCKET_LENGTH * r
      {
        var limit := pos % BUCKET_LENGTH;
        var z, seen := ScanRun(pos, limit, BUCKET_LENGTH, code, key, tombstone);
        if z < BUCKET_LENGTH {
          k := StopInFirstRun(t, code, pos, r, z, stops);
          SeenOnPath(t, code, pos, r, limit, z, tombstone, seen, BUCKET_LENGTH * r, k, stops);
          return Place(pos, z), seen, k;
        }
        SeenOnPath(t, code, pos, r, limit, z, tombstone, seen, BUCKET_LENGTH * r, BUCKET_LENGTH * r + (BUCKET_LENGTH - limit), stops);
        tombstone := seen;
        z, seen := ScanRun(pos, 0, limit, code, key, tombstone);
        if z < limit {
          k := StopInSecondRun(t, code, pos, r, z, stops);
          SeenOnPath(t, code, pos, r, 0, z, tombstone, seen, BUCKET_LENGTH * r + (BUCKET_LENGTH - limit), k, stops);
          return Place(pos, z), seen, k;
        }
        SeenOnPath(t, code, pos, r, 0, z, tombstone, seen, BUCKET_LENGTH * r + (BUCKET_LENGTH - limit), BUCKET_LENGTH * (r + 1), stops);
        tombstone := seen;
        NextRound(t, code, pos, r, stops);
        pos := (pos + step) % table.slotCount;
        step := step + BUCKET_LENGTH;
        r := r + 1;
      }
    }

    /** stbds_hm_find_slot, in a table that may lack a slot for some entries. */
    method FindSlot(key: K, ghost live: set<nat>) returns (slot: int)
      requires table != null && table.Sized() && HasRoom(table.View())
      requires Indexed(table.View(), MyCodes(), depth, live)
      ensures slot >= 0 ==>
                && slot < table.slotCount
                && table.index[slot] in live
                && entries[table.index[slot]].key == key
      ensures slot < 0 ==> forall i :: i in live ==> entries[i].key != key
    {
      var code := StoredHash(hashBytes(key, table.seed));
      ghost var t := table.View();
      forall s | 0 <= s < table.slotCount ensures table.index[s] < |entries| {
        assert t.index[s] == table.index[s];
      }
      var s, _, k := Probe(code, key);
      if table.hash[s] == HASH_EMPTY {
        MissMeansAbsent(t, entries, MyCodes(), depth, live, code, key, k, s);
        slot := -1;
      } else {
        slot := s;
      }
    }

    /** hmgeti: the index of a key, or -1. The first call allocates the default entry. */
    method Find(key: K) returns (i: int)
      requires Valid()
      modifies this
      ensures Valid() && table == old(table) && entries == old(entries)
      ensures isAllocated && i == temp == IndexOf(entries, key)
    {
      hide Bucket, Count;
      if !isAllocated {
        isAllocated := true;
        temp := -1;
      } else if table == null {
        temp := -1;
      } else {
        CountedHasRoom(table.View(), table.usedCount, table.tombstoneCount, MyCodes(), depth, UpTo(|entries|), 0);
        var slot := FindSlot(key, UpTo(|entries|));
        temp := if slot < 0 then -1 else table.index[slot];
      }
      return temp;
    }

    method FirstIndex()
      requires Valid() && isAllocated && table == null
      modifies this
      ensures Valid() && isAllocated && table != null && entries == old(entries)
      ensures table.usedCount < UsedThreshold(table.slotCount) && table.slotCount == BUCKET_LENGTH
      ensures fresh(table) && fresh(table.hash) && fresh(table.index)
    {
      SmallestSlotCount();
      table := new HashIndex(BUCKET_LENGTH, firstSeed);
      depth := [];
      FreshTable(table.View(), MyCodes(), depth);
    }

    /** Replaces the index by one of `n` slots. */
    method Reindex(n: nat)
      requires Loose() || (Valid() && isAllocated && table != null)
      requires SlotCount(n) && |entries| <= UsedThreshold(n)
      modifies this
      ensures Valid() && isAllocated && table != null && entries == old(entries) && temp == old(temp)
      ensures table.slotCount == n && table.usedCount == old(table.usedCount)
      ensures fresh(table) && fresh(table.hash) && fresh(table.index)
    {
      hide Count, Indexed;
      ThresholdsLeaveRoom(n);
      var nt, placed := Rehash(n, table, MyCodes(), depth, UpTo(|entries|));
      table := nt;
      depth := placed;
    }

    /** The growing step of an insertion: afterwards there is an index with a free slot to use. */
    method Grow()
      requires Valid() && isAllocated
      modifies this
      ensures Valid() && isAllocated && table != null && entries == old(entries)
      ensures table.usedCount < UsedThreshold(table.slotCount)
      ensures table.slotCount == if old(table) == null then BUCKET_LENGTH
                                 else if |entries| >= UsedThreshold(old(table.slotCount)) then 2 * old(table.slotCount)
                                 else old(table.slotCount)
      ensures table == old(table) || (fresh(table) && fresh(table.hash) && fresh(table.index))
    {
      if table == null {
        FirstIndex();
      } else if table.usedCount >= UsedThreshold(table.slotCount) {
        SlotCountFacts(table.slotCount);
        Reindex(table.slotCount * 2);
      }
    }

    /** The search part of an insertion: the index of the key, or a slot for it. */
    method Locate(key: K, code: int) returns (i: int, slot: nat, tombstone: int, ghost k: nat)
      requires Valid() && table != null && code == StoredHash(hashBytes(key, table.seed))
      ensures i == IndexOf(entries, key)
      ensures i < 0 ==>
                && k < table.slotCount && slot == SlotAt(table.View(), code, k) && NoGap(table.View(), code, k)
                && table.hash[slot] == HASH_EMPTY && TombstoneOnPath(table.View(), code, k, tombstone)
    {
      hide Bucket;
      CountedHasRoom(table.View(), table.usedCount, table.tombstoneCount, MyCodes(), depth, UpTo(|entries|), 0);
      slot, tombstone, k := Probe(code, key);
      if table.hash[slot] == code {
        i := table.index[slot];
        IndexOfIs(entries, i, key);
      } else {
        MissMeansAbsent(table.View(), entries, MyCodes(), depth, UpTo(|entries|), code, key, k, slot);
        i := -1;
      }
    }

    method SetValue(i: nat, key: K, value: V)
      requires Valid() && isAllocated && i < |entries| && entries[i].key == key
      modifies this
      ensures Valid() && isAllocated && table == old(table)
      ensures entries == PutEntry(old(entries), key, value) && temp == IndexOf(entries, key)
    {
      hide Indexed, Count;
      temp := i;
      UpdateOldKey(entries, i, key, value);
      if table != null {
        CodesSameKeys(entries, entries[i := Entry(key, value)], hashBytes, table.seed);
      }
      entries := entries[i := Entry(key, value)];
      assert table != null ==> table.View() == old(table.View()) && MyCodes() == old(MyCodes());
    }

    /** The writes of an insertion, whatever they mean. */
    method Store(pos: nat, code: int, entry: Entry<K, V>, reuse: bool, ghost j: nat)
      requires table != null && table.Sized() && pos < table.slotCount
      requires reuse ==> table.tombstoneCount > 0
      modifies this, table, table.hash, table.index
      ensures table == old(table) && isAllocated == old(isAllocated)
      ensures table.View() == Write(old(table.View()), pos, code, |old(entries)|)
      ensures table.usedCount == old(table.usedCount) + 1
      ensures table.tombstoneCount == if reuse then old(table.tombstoneCount) - 1 else old(table.tombstoneCount)
      ensures entries == old(entries) + [entry] && temp == |old(entries)| && depth == old(depth) + [j]
    {
      if reuse {
        table.tombstoneCount := table.tombstoneCount - 1;
      }
      table.usedCount := table.usedCount + 1;
      table.WriteSlot(pos, code, |entries|);
      temp := |entries|;
      entries := entries + [entry];
      depth := depth + [j];
    }

    /** Writes the slot of a new entry and appends the entry. */
    method AppendEntry(key: K, value: V, code: int, slot: nat, tombstone: int, ghost k: nat)
      requires Valid() && isAllocated && table != null
      requires code == StoredHash(hashBytes(key, table.seed)) && IndexOf(entries, key) < 0
      requires table.usedCount < UsedThreshold(table.slotCount)
      requires k < table.slotCount && slot == SlotAt(table.View(), code, k) && NoGap(table.View(), code, k)
      requires table.hash[slot] == HASH_EMPTY && TombstoneOnPath(table.View(), code, k, tombstone)
      modifies this, table, table.hash, table.index
      ensures Valid() && isAllocated && table == old(table)
      ensures entries == PutEntry(old(entries), key, value) && temp == IndexOf(entries, key)
    {
      hide Indexed, Count, Bucket;
      ghost var j := AppendSound(table.View(), table.usedCount, table.tombstoneCount, entries, MyCodes(), depth,
                                 Entry(key, value), code, slot, tombstone, k);
      CodesAppend(entries, Entry(key, value), hashBytes, table.seed);
      AppendNewKey(entries, key, value);
      Store(Target(slot, tombstone), code, Entry(key, value), tombstone >= 0, j);
      assert Sound(table.View(), table.usedCount, table.tombstoneCount, entries, MyCodes(), depth);
    }

    /** hmput: updates the value of a present key, appends a new key. */
    method Put(key: K, value: V)
      requires Valid()
      modifies this, Footprint()
      ensures Valid() && isAllocated
      ensures entries == PutEntry(old(entries), key, value)
      ensures temp == IndexOf(entries, key)
      ensures table != null && (table == old(table) || (fresh(table) && fresh(table.hash) && fresh(table.index)))
    {
      hide Indexed, Count, Bucket;
      isAllocated := true;
      Grow();
      var code := StoredHash(hashBytes(key, table.seed));
      var i, slot, tombstone, k := Locate(key, code);
      if i >= 0 {
        SetValue(i, key, value);
      } else {
        AppendEntry(key, value, code, slot, tombstone, k);
      }
    }

    /** The state between the removal of an entry and a possible rebuild of the index. */
    ghost predicate Loose()
      reads this, Footprint()
    {
      && isAllocated && DistinctKeys(entries) && table != null && table.Sized()
      && Sound(table.View(), table.usedCount, table.tombstoneCount, entries, MyCodes(), depth, 1)
    }

    /** Entry `i` has lost its slot. */
    ghost predicate Holed(i: nat)
      reads this, Footprint()
    {
      && isAllocated && DistinctKeys(entries) && table != null && table.Sized() && i < |entries|
      && table.usedCount == |entries| - 1
      && Counted(table.View(), table.usedCount, table.tombstoneCount, MyCodes(), depth, UpTo(|entries|) - {i}, 1)
    }

    method WriteTombstone(slot: nat)
      requires table != null && table.Sized() && slot < table.slotCount && table.usedCount > 0
      modifies table, table.hash, table.index
      ensures table.View() == Write(old(table.View()), slot, HASH_DELETED, INDEX_DELETED)
      ensures table.usedCount == old(table.usedCount) - 1 && table.tombstoneCount == old(table.tombstoneCount) + 1
    {
      table.usedCount := table.usedCount - 1;
      table.tombstoneCount := table.tombstoneCount + 1;
      table.WriteSlot(slot, HASH_DELETED, INDEX_DELETED);
    }

    method Bury(slot: nat)
      requires Valid() && isAllocated && table != null && slot < table.slotCount && table.index[slot] >= 0
      modifies table, table.hash, table.index
      ensures Holed(old(table.index[slot]))
    {
      hide Indexed, Count;
      TombstoneCounted(table.View(), table.usedCount, table.tombstoneCount, MyCodes(), depth, slot);
      WriteTombstone(slot);
    }

    method DropLast()
      requires |entries| > 0 && Holed(|entries| - 1)
      modifies this
      ensures Loose() && table == old(table)
      ensures entries == old(entries)[..|old(entries)| - 1]
    {
      hide Indexed, Count;
      var last := |entries| - 1;
      DropLastCounted(table.View(), table.usedCount, table.tombstoneCount, MyCodes(), depth);
      CodesSwapDelete(entries, last, hashBytes, table.seed);
      assert entries[last := entries[last]] == entries;
      assert MyCodes()[last := MyCodes()[last]] == MyCodes();
      entries := entries[..last];
      depth := depth[..last];
      assert Sound(table.View(), table.usedCount, table.tombstoneCount, entries, MyCodes(), depth, 1);
    }

    /** The second lookup of a deletion: it finds the slot of the entry that was copied into the hole. */
    method FindMoved(i: nat, ghost before: seq<Entry<K, V>>) returns (slot: nat)
      requires isAllocated && table != null && table.Sized()
      requires DistinctKeys(before) && i < |before| - 1 && entries == before[i := before[|before| - 1]]
      requires Counted(table.View(), table.usedCount, table.tombstoneCount, MyCodes(), depth, UpTo(|before|) - {i}, 1)
      ensures slot < table.slotCount && table.index[slot] == |before| - 1
    {
      CountedHasRoom(table.View(), table.usedCount, table.tombstoneCount, MyCodes(), depth, UpTo(|before|) - {i}, 1);
      var s := FindSlot(entries[i].key, UpTo(|before|) - {i});
      assert entries[|before| - 1].key == entries[i].key && |before| - 1 in UpTo(|before|) - {i};
      LastIsFound(before, i, table.index[s]);
      slot := s;
    }

    method Repoint(slot: nat, i: nat)
      requires table != null && table.Sized() && slot < table.slotCount
      modifies table.hash, table.index
      ensures table.View() == Write(old(table.View()), slot, old(table.hash[slot]), i)
    {
      table.WriteSlot(slot, table.hash[slot], i);
    }

    method Truncate(ghost placed: seq<nat>)
      requires |entries| > 0
      modifies this
      ensures table == old(table) && isAllocated == old(isAllocated) && temp == old(temp)
      ensures entries == old(entries)[..|old(entries)| - 1] && depth == placed
    {
      entries := entries[..|entries| - 1];
      depth := placed;
    }

    /** Moves the last entry into the hole and repairs its back-pointer. */
    method MoveLast(i: nat)
      requires Holed(i) && i < |entries| - 1
      modifies this, table.hash, table.index
      ensures Loose() && table == old(table)
      ensures entries == old(entries)[i := old(entries)[|old(entries)| - 1]][..|old(entries)| - 1]
    {
      hide Indexed, Count;
      ghost var before, codes, was := entries, MyCodes(), depth;
      var last := |entries| - 1;
      HoleCounted(table.View(), table.usedCount, table.tombstoneCount, codes, depth, i);
      CodesMoveLast(entries, i, hashBytes, table.seed);
      CodesSwapDelete(entries, i, hashBytes, table.seed);
      entries := entries[i := entries[last]];
      assert MyCodes() == codes[i := codes[last]] && table.View() == old(table.View());
      var slot := FindMoved(i, before);
      MoveCounted(table.View(), table.usedCount, table.tombstoneCount, codes, was, i, slot);
      Repoint(slot, i);
      Truncate(was[i := was[last]][..last]);
      assert MyCodes() == codes[i := codes[last]][..last];
      assert Sound(table.View(), table.usedCount, table.tombstoneCount, entries, MyCodes(), depth, 1);
    }

    /** After a removal the index shrinks, or is rebuilt when there are too many tombstones. */
    method Settle()
      requires Loose()
      modifies this
      ensures Valid() && isAllocated && table != null && entries == old(entries) && temp == old(temp)
      ensures table.slotCount == if |entries| < ShrinkThreshold(old(table.slotCount)) then old(table.slotCount) / 2
                                 else old(table.slotCount)
      ensures table == old(table) || (fresh(table) && fresh(table.hash) && fresh(table.index))
    {
      SlotCountFacts(table.slotCount);
      if table.usedCount < ShrinkThreshold(table.slotCount) && table.slotCount > BUCKET_LENGTH {
        Reindex(table.slotCount / 2);
      } else if table.tombstoneCount > TombstoneThreshold(table.slotCount) {
        Reindex(table.slotCount);
      }
    }

    /** Removes the entry that `slot` points at. */
    method RemoveAt(slot: nat, key: K)
      requires Valid() && isAllocated && table != null && slot < table.slotCount
      requires 0 <= table.index[slot] < |entries| && entries[table.index[slot]].key == key
      modifies this, table, table.hash, table.index
      ensures Valid() && isAllocated && table != null && temp == 1
      ensures entries == DeleteEntry(old(entries), key)
      ensures table == old(table) || (fresh(table) && fresh(table.hash) && fresh(table.index))
    {
      hide Sound, Indexed;
      var i := table.index[slot];
      SwapDelete(entries, i, key);
      Bury(slot);
      if i != |entries| - 1 {
        MoveLast(i);
      } else {
        assert entries[i := entries[|entries| - 1]] == entries;
        DropLast();
      }
      Settle();
      label Settled:
      temp := 1;
      assert table.View() == old@Settled(table.View());
    }

    /** hmdel: the last entry takes the place of the deleted one; the result is 1 or 0. */
    method Delete(key: K) returns (found: int)
      requires Valid()
      modifies this, Footprint()
      ensures Valid() && isAllocated == old(isAllocated)
      ensures entries == DeleteEntry(old(entries), key)
      ensures found == if IndexOf(old(entries), key) >= 0 then 1 else 0
      ensures isAllocated ==> found == temp
      ensures table == old(table) || (table != null && fresh(table) && fresh(table.hash) && fresh(table.index))
    {
      hide Bucket, Count;
      if !isAllocated {
        return 0;
      }
      var slot := -1;
      if table != null {
        CountedHasRoom(table.View(), table.usedCount, table.tombstoneCount, MyCodes(), depth, UpTo(|entries|), 0);
        slot := FindSlot(key, UpTo(|entries|));
      }
      if slot < 0 {
        temp := 0;
        return 0;
      }
      RemoveAt(slot, key);
      return 1;
    }

    /** One operation of a run. */
    method Step(op: Op<K, V>) returns (reply: int)
      requires Valid()
      modifies this, Footprint()
      ensures Valid()
      ensures entries == Apply(old(entries), op) && reply == Reply(old(entries), op)
      ensures fresh(Footprint() - old(Footprint()))
    {
      hide HashMap.Valid;
      match op
      case Put(k, v) =>
        Put(k, v);
        reply := temp;
      case Find(k) =>
        reply := Find(k);
      case Delete(k) =>
        reply := Delete(k);
    }
  }

  /**
   Any run of operations on a new map: the entries and every result are those of the
   specification, however the index grew, shrank or was rebuilt on the way.
   */
  method Replay<K(==), V>(hashBytes: (K, nat) -> nat, seed: nat, ops: seq<Op<K, V>>)
    returns (m: HashMap<K, V>, replies: seq<int>)
    ensures m.Valid() && fresh(m) && fresh(m.Footprint())
    ensures m.entries == Run(ops) && replies == Replies(ops)
  {
    hide HashMap.Valid;
    m := new HashMap(hashBytes, seed);
    replies := [];
    for n := 0 to |ops|
      invariant m.Valid() && fresh(m.Footprint())
      invariant m.entries == Run(ops[..n]) && replies == Replies(ops[..n])
    {
      assert ops[..n + 1][..n] == ops[..n];
      var reply := m.Step(ops[n]);
      replies := replies + [reply];
    }
    assert ops[..|ops|] == ops;
  }
}
