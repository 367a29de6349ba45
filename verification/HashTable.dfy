/**
 What a hash index means, and why inserting, deleting and moving entries keep it meaningful.

 A table is a pair of equally long sequences: the stored hash of every slot (0 is empty,
 1 is deleted) and the entry index of every slot (-1 is empty, -2 is deleted). Entries
 are described by `codes`, the stored hash of each entry, and by `depth`, the
 number of probes that precede the entry's slot in the entry's own probe order.
 Only the entries in `live` have a slot.
 */
module HashTable {
  import opened ProbeOrder

  const HASH_EMPTY: int := 0
  const HASH_DELETED: int := 1
  const INDEX_EMPTY: int := -1
  const INDEX_DELETED: int := -2

  datatype Table = Table(hash: seq<int>, index: seq<int>)

  /** Stored hashes avoid the two reserved values. */
  function StoredHash(h: nat): (c: nat)
    ensures c >= 2
  {
    if h < 2 then h + 2 else h
  }

  ghost predicate Shape(t: Table) {
    && |t.hash| == |t.index| > 0
    && |t.hash| % BUCKET_LENGTH == 0
    && SlotCount(|t.hash|)
    && (forall s :: 0 <= s < |t.hash| ==>
          && t.index[s] >= INDEX_DELETED
          && t.hash[s] >= HASH_EMPTY
          && (t.hash[s] == HASH_EMPTY <==> t.index[s] == INDEX_EMPTY)
          && (t.hash[s] == HASH_DELETED <==> t.index[s] == INDEX_DELETED))
  }

  /** The slot that the `k`-th probe for hash `code` looks at. */
  ghost function SlotAt(t: Table, code: int, k: nat): (s: nat)
    requires Shape(t)
    ensures s < |t.hash| == |t.index|
  {
    ProbeSlot(code % |t.hash|, |t.hash|, k)
  }

  /** The first `k` probes for `code` meet no empty slot. */
  ghost predicate NoGap(t: Table, code: int, k: nat)
    requires Shape(t)
  {
    forall j: nat :: j < k ==> t.hash[SlotAt(t, code, j)] != HASH_EMPTY
  }

  /** Entry `i` has its slot at probe `depth`, and the probe path to it has no empty slot. */
  ghost predicate Placed(t: Table, i: nat, code: int, depth: nat)
    requires Shape(t)
  {
    && code >= 2
    && depth < |t.hash|
    && t.index[SlotAt(t, code, depth)] == i
    && t.hash[SlotAt(t, code, depth)] == code
    && NoGap(t, code, depth)
  }

  /** Slots in use and live entries are in bijection, and every live entry can be found. */
  ghost predicate Indexed(t: Table, codes: seq<int>, depth: seq<nat>, live: set<nat>) {
    && Shape(t)
    && |depth| == |codes|
    && (forall i :: i in live ==> i < |codes| && Placed(t, i, codes[i], depth[i]))
    && (forall s :: 0 <= s < |t.index| && t.index[s] >= 0 ==>
          t.index[s] in live && s == SlotAt(t, codes[t.index[s]], depth[t.index[s]]))
  }

  /** All entries below `n`. */
  ghost function UpTo(n: nat): (live: set<nat>)
    ensures forall i: int :: i in live <==> 0 <= i < n
  {
    if n == 0 then {} else UpTo(n - 1) + {n - 1}
  }

  // ------------------------------------------------------------------ counting

  function Kind(v: int): int {
    if v >= 0 then 0 else v
  }

  /** The number of slots of one kind: 0 in use, -1 empty, -2 deleted. */
  ghost function Count(index: seq<int>, kind: int): nat {
    if index == [] then 0
    else Count(index[..|index| - 1], kind) + if Kind(index[|index| - 1]) == kind then 1 else 0
  }

  lemma {:induction false} CountUpdate(index: seq<int>, s: nat, v: int, kind: int)
    requires s < |index|
    ensures Count(index[s := v], kind)
         == Count(index, kind) + (if Kind(v) == kind then 1 else 0) - (if Kind(index[s]) == kind then 1 else 0)
  {
    var last := |index| - 1;
    if s == last {
      assert index[s := v][..last] == index[..last];
    } else {
      CountUpdate(index[..last], s, v, kind);
      assert index[s := v][..last] == index[..last][s := v];
    }
  }

  lemma {:induction false} CountTotal(index: seq<int>)
    requires forall s :: 0 <= s < |index| ==> index[s] >= INDEX_DELETED
    ensures Count(index, 0) + Count(index, INDEX_EMPTY) + Count(index, INDEX_DELETED) == |index|
  {
    if index != [] {
      CountTotal(index[..|index| - 1]);
    }
  }

  lemma {:induction false} CountWitness(index: seq<int>, kind: int) returns (s: nat)
    requires Count(index, kind) > 0
    ensures s < |index| && Kind(index[s]) == kind
  {
    var last := |index| - 1;
    if Kind(index[last]) == kind {
      s := last;
    } else {
      s := CountWitness(index[..last], kind);
    }
  }

  lemma {:induction false} CountUniform(index: seq<int>, v: int, kind: int)
    requires forall s :: 0 <= s < |index| ==> index[s] == v
    ensures Count(index, kind) == if Kind(v) == kind then |index| else 0
  {
    if index != [] {
      CountUniform(index[..|index| - 1], v, kind);
    }
  }

  lemma {:induction false} CountPrefix(index: seq<int>, k: nat, kind: int)
    requires k <= |index|
    ensures Count(index[..k], kind) <= Count(index, kind)
    decreases |index|
  {
    if k == |index| {
      assert index[..k] == index;
    } else {
      CountPrefix(index[..|index| - 1], k, kind);
      assert index[..|index| - 1][..k] == index[..k];
    }
  }

  // ------------------------------------------------------------------ the probe loop

  /** None of the first `k` probes for `code` is in `stops`. */
  ghost predicate Avoids(t: Table, code: int, k: nat, stops: set<nat>)
    requires Shape(t)
  {
    forall j: nat :: j < k ==> SlotAt(t, code, j) !in stops
  }

  ghost predicate AtProbe(t: Table, code: int, pos: nat, r: nat)
    requires Shape(t)
  {
    AtRound(code % |t.hash|, |t.hash|, pos, r)
  }

  ghost predicate RunAvoids(pos: nat, lo: nat, hi: nat, stops: set<nat>) {
    forall i: nat :: lo <= i < hi ==> Place(pos, i) !in stops
  }

  /** The run from `pos` to the end of its bucket. */
  lemma {:induction false} FirstRun(t: Table, code: int, pos: nat, r: nat, z: nat, stops: set<nat>)
    requires Shape(t) && AtProbe(t, code, pos, r)
    requires Avoids(t, code, BUCKET_LENGTH * r, stops)
    requires pos % BUCKET_LENGTH <= z <= BUCKET_LENGTH && RunAvoids(pos, pos % BUCKET_LENGTH, z, stops)
    ensures Avoids(t, code, BUCKET_LENGTH * r + (z - pos % BUCKET_LENGTH), stops)
    ensures z < BUCKET_LENGTH ==>
              SlotAt(t, code, BUCKET_LENGTH * r + (z - pos % BUCKET_LENGTH)) == Place(pos, z)
  {
    var low, n := pos % BUCKET_LENGTH, |t.hash|;
    forall j: nat | BUCKET_LENGTH * r <= j < BUCKET_LENGTH * r + (z - low) ensures SlotAt(t, code, j) !in stops {
      var i := j - BUCKET_LENGTH * r + low;
      RoundSlot(code % n, n, pos, r, i);
      assert SlotAt(t, code, j) == Place(pos, i);
    }
    if z < BUCKET_LENGTH {
      RoundSlot(code % n, n, pos, r, z);
    }
  }

  /** The run from the beginning of the bucket back to `pos`. */
  lemma {:induction false} SecondRun(t: Table, code: int, pos: nat, r: nat, z: nat, stops: set<nat>)
    requires Shape(t) && AtProbe(t, code, pos, r)
    requires Avoids(t, code, BUCKET_LENGTH * r + (BUCKET_LENGTH - pos % BUCKET_LENGTH), stops)
    requires z <= pos % BUCKET_LENGTH && RunAvoids(pos, 0, z, stops)
    ensures Avoids(t, code, BUCKET_LENGTH * r + (BUCKET_LENGTH - pos % BUCKET_LENGTH) + z, stops)
    ensures z < pos % BUCKET_LENGTH ==>
              SlotAt(t, code, BUCKET_LENGTH * r + (BUCKET_LENGTH - pos % BUCKET_LENGTH) + z) == Place(pos, z)
  {
    var low, n := pos % BUCKET_LENGTH, |t.hash|;
    var base := BUCKET_LENGTH * r + (BUCKET_LENGTH - low);
    forall j: nat | base <= j < base + z ensures SlotAt(t, code, j) !in stops {
      RoundSlot(code % n, n, pos, r, j - base);
      assert SlotAt(t, code, j) == Place(pos, j - base);
    }
    if z < low {
      RoundSlot(code % n, n, pos, r, z);
    }
  }

  ghost function EmptySlots(t: Table): (stops: set<nat>)
    requires Shape(t)
  {
    set s | 0 <= s < |t.hash| && t.hash[s] == HASH_EMPTY
  }

  /**
   If slots in use and tombstones do not fill the table, a probe that stops at empty
   slots (and perhaps at others) stops within as many probes as there are slots.
   */
  lemma {:induction false} ProbeStops(t: Table, code: int, k: nat, stops: set<nat>)
    requires Shape(t) && k <= |t.hash|
    requires HasRoom(t)
    requires Avoids(t, code, k, stops) && EmptySlots(t) <= stops
    ensures k < |t.hash|
  {
    CountTotal(t.index);
    var s := CountWitness(t.index, INDEX_EMPTY);
    var j := ProbeReaches(code % |t.hash|, |t.hash|, s);
    assert SlotAt(t, code, j) == s;
  }

  /** What a probe loop keeps: `r` rounds are done and none of their slots stopped it. */
  ghost predicate Probing(t: Table, code: int, pos: nat, r: nat, stops: set<nat>) {
    && Shape(t)
    && BUCKET_LENGTH * r < |t.hash|
    && AtProbe(t, code, pos, r)
    && Avoids(t, code, BUCKET_LENGTH * r, stops)
    && EmptySlots(t) <= stops
  }

  lemma {:induction false} ProbingStarts(t: Table, code: int, stops: set<nat>)
    requires Shape(t) && EmptySlots(t) <= stops
    ensures Probing(t, code, code % |t.hash|, 0, stops)
  {
  }

  ghost predicate HasRoom(t: Table) {
    Count(t.index, 0) + Count(t.index, INDEX_DELETED) < |t.index|
  }

  /** The probe path of `code` is free of stops up to probe `k`, which looks at slot `s`. */
  ghost predicate StopsAt(t: Table, code: int, k: nat, s: nat, stops: set<nat>)
    requires Shape(t)
  {
    && k < |t.hash|
    && s == SlotAt(t, code, k)
    && Avoids(t, code, k, stops)
    && NoGap(t, code, k)
  }

  lemma {:induction false} RoundFits(n: nat, r: nat, k: nat)
    requires n % BUCKET_LENGTH == 0 && BUCKET_LENGTH * r < n && k < BUCKET_LENGTH * r + BUCKET_LENGTH
    ensures k < n
  {
  }

  lemma {:induction false} StopInFirstRun(t: Table, code: int, pos: nat, r: nat, z: nat, stops: set<nat>)
    returns (k: nat)
    requires Probing(t, code, pos, r, stops)
    requires pos % BUCKET_LENGTH <= z < BUCKET_LENGTH && RunAvoids(pos, pos % BUCKET_LENGTH, z, stops)
    ensures StopsAt(t, code, k, Place(pos, z), stops) && k == ProbeNumber(pos % BUCKET_LENGTH, r, z)
  {
    k := BUCKET_LENGTH * r + (z - pos % BUCKET_LENGTH);
    FirstRun(t, code, pos, r, z, stops);
    RoundFits(|t.hash|, r, k);
    AvoidsIsNoGap(t, code, k, stops);
  }

  lemma {:induction false} StopInSecondRun(t: Table, code: int, pos: nat, r: nat, z: nat, stops: set<nat>)
    returns (k: nat)
    requires Probing(t, code, pos, r, stops)
    requires RunAvoids(pos, pos % BUCKET_LENGTH, BUCKET_LENGTH, stops)
    requires z < pos % BUCKET_LENGTH && RunAvoids(pos, 0, z, stops)
    ensures StopsAt(t, code, k, Place(pos, z), stops) && k == ProbeNumber(pos % BUCKET_LENGTH, r, z)
  {
    k := BUCKET_LENGTH * r + (BUCKET_LENGTH - pos % BUCKET_LENGTH) + z;
    FirstRun(t, code, pos, r, BUCKET_LENGTH, stops);
    SecondRun(t, code, pos, r, z, stops);
    RoundFits(|t.hash|, r, k);
    AvoidsIsNoGap(t, code, k, stops);
  }

  /** After a round without a stop there is another bucket to look at. */
  lemma {:induction false} NextRound(t: Table, code: int, pos: nat, r: nat, stops: set<nat>)
    requires Probing(t, code, pos, r, stops) && HasRoom(t)
    requires RunAvoids(pos, pos % BUCKET_LENGTH, BUCKET_LENGTH, stops)
    requires RunAvoids(pos, 0, pos % BUCKET_LENGTH, stops)
    ensures var next := (pos + BUCKET_LENGTH * (r + 1)) % |t.hash|;
            Probing(t, code, next, r + 1, stops) && next < |t.hash| && BUCKET_LENGTH * (r + 1) < |t.hash|
  {
    FirstRun(t, code, pos, r, BUCKET_LENGTH, stops);
    SecondRun(t, code, pos, r, pos % BUCKET_LENGTH, stops);
    ProbeStops(t, code, BUCKET_LENGTH * (r + 1), stops);
    ProbeJump(code % |t.hash|, |t.hash|, pos, r);
  }

  lemma {:induction false} AvoidsIsNoGap(t: Table, code: int, k: nat, stops: set<nat>)
    requires Shape(t) && Avoids(t, code, k, stops) && EmptySlots(t) <= stops
    ensures NoGap(t, code, k)
  {
  }

  /** A tombstone seen on the probe path of `code` before probe `k`. */
  ghost predicate TombstoneOnPath(t: Table, code: int, k: nat, tombstone: int)
    requires Shape(t)
  {
    tombstone >= 0 ==>
      && tombstone < |t.index|
      && t.index[tombstone] == INDEX_DELETED
      && exists j: nat :: j < k && SlotAt(t, code, j) == tombstone
  }

  /** What a run over a bucket may do to the remembered tombstone. */
  ghost predicate SeenInRun(t: Table, pos: nat, lo: nat, z: nat, tombstone: int, seen: int)
    requires |t.hash| == |t.index|
  {
    seen == tombstone
    || exists i: nat :: lo <= i < z && seen == Place(pos, i) < |t.index| && t.index[seen] == INDEX_DELETED
  }

  /** A tombstone met in a run lies on the probe path, before whatever comes after the run. */
  lemma {:induction false} SeenOnPath(
    t: Table, code: int, pos: nat, r: nat, lo: nat, z: nat, tombstone: int, seen: int, k0: nat, k: nat, stops: set<nat>)
    requires Probing(t, code, pos, r, stops) && z <= BUCKET_LENGTH
    requires TombstoneOnPath(t, code, k0, tombstone) && k0 <= k
    requires SeenInRun(t, pos, lo, z, tombstone, seen)
    requires forall i: nat :: lo <= i < z ==> ProbeNumber(pos % BUCKET_LENGTH, r, i) < k
    ensures TombstoneOnPath(t, code, k, seen)
  {
    if seen != tombstone {
      var i: nat :| lo <= i < z && seen == Place(pos, i) < |t.index| && t.index[seen] == INDEX_DELETED;
      RoundSlot(code % |t.hash|, |t.hash|, pos, r, i);
      assert SlotAt(t, code, ProbeNumber(pos % BUCKET_LENGTH, r, i)) == seen;
    } else if seen >= 0 {
      var j: nat :| j < k0 && SlotAt(t, code, j) == tombstone;
      assert j < k;
    }
  }

  // ------------------------------------------------------------------ lookup

  /** The first empty slot of a probe ends the search: whatever has this hash lies before it. */
  lemma {:induction false} EmptySlotEndsSearch(
    t: Table, codes: seq<int>, depth: seq<nat>, live: set<nat>, i: nat, k: nat)
    requires Indexed(t, codes, depth, live) && i in live
    requires t.hash[SlotAt(t, codes[i], k)] == HASH_EMPTY
    ensures depth[i] < k
  {
    assert Placed(t, i, codes[i], depth[i]);
  }

  /** Live entries have different slots. */
  lemma {:induction false} SlotsDiffer(t: Table, codes: seq<int>, depth: seq<nat>, live: set<nat>, i: nat, j: nat)
    requires Indexed(t, codes, depth, live) && i in live && j in live && i != j
    ensures SlotAt(t, codes[i], depth[i]) != SlotAt(t, codes[j], depth[j])
  {
    assert Placed(t, i, codes[i], depth[i]) && Placed(t, j, codes[j], depth[j]);
  }

  // ------------------------------------------------------------------ updates

  function Write(t: Table, s: nat, hash: int, index: int): (u: Table)
    requires s < |t.hash| == |t.index|
  {
    Table(t.hash[s := hash], t.index[s := index])
  }

  /** Overwriting a slot keeps every path that stays free of empty slots. */
  lemma {:induction false} PathKept(t: Table, u: Table, s: nat, hash: int, index: int, code: int, k: nat)
    requires Shape(t) && s < |t.hash| && u == Write(t, s, hash, index) && Shape(u)
    requires NoGap(t, code, k) && hash != HASH_EMPTY
    ensures NoGap(u, code, k)
  {
    forall j: nat | j < k ensures u.hash[SlotAt(u, code, j)] != HASH_EMPTY {
      assert t.hash[SlotAt(t, code, j)] != HASH_EMPTY;
    }
  }

  /** An entry goes into the first empty slot of its path, or into a tombstone before it. */
  lemma {:induction false} InsertKeeps(
    t: Table, codes: seq<int>, depth: seq<nat>, live: set<nat>, i: nat, k: nat)
    requires Indexed(t, codes, depth, live)
    requires i !in live && i < |codes| && codes[i] >= 2 && k < |t.hash|
    requires NoGap(t, codes[i], k)
    requires t.index[SlotAt(t, codes[i], k)] < 0
    ensures Indexed(Write(t, SlotAt(t, codes[i], k), codes[i], i), codes, depth[i := k], live + {i})
  {
    var s := SlotAt(t, codes[i], k);
    var u := Write(t, s, codes[i], i);
    assert Shape(u);
    forall j | j in live + {i} ensures Placed(u, j, codes[j], depth[i := k][j]) {
      if j != i {
        assert Placed(t, j, codes[j], depth[j]);
        PathKept(t, u, s, codes[i], i, codes[j], depth[j]);
        assert SlotAt(u, codes[j], depth[j]) == SlotAt(t, codes[j], depth[j]);
      } else {
        PathKept(t, u, s, codes[i], i, codes[i], k);
        assert SlotAt(u, codes[i], k) == s;
      }
    }
    forall x | 0 <= x < |u.index| && u.index[x] >= 0
      ensures u.index[x] in live + {i} && x == SlotAt(u, codes[u.index[x]], depth[i := k][u.index[x]])
    {
      if x != s {
        assert t.index[x] in live && x == SlotAt(t, codes[t.index[x]], depth[t.index[x]]);
        assert SlotAt(u, codes[u.index[x]], depth[u.index[x]]) == SlotAt(t, codes[t.index[x]], depth[t.index[x]]);
      } else {
        assert SlotAt(u, codes[i], k) == s;
      }
    }
  }

  /** Turning an entry's slot into a tombstone removes just that entry. */
  lemma {:induction false} TombstoneKeeps(
    t: Table, codes: seq<int>, depth: seq<nat>, live: set<nat>, i: nat)
    requires Indexed(t, codes, depth, live) && i in live
    ensures Indexed(Write(t, SlotAt(t, codes[i], depth[i]), HASH_DELETED, INDEX_DELETED), codes, depth, live - {i})
  {
    var s := SlotAt(t, codes[i], depth[i]);
    var u := Write(t, s, HASH_DELETED, INDEX_DELETED);
    assert Shape(u);
    forall j | j in live - {i} ensures Placed(u, j, codes[j], depth[j]) {
      assert Placed(t, j, codes[j], depth[j]);
      SlotsDiffer(t, codes, depth, live, i, j);
      PathKept(t, u, s, HASH_DELETED, INDEX_DELETED, codes[j], depth[j]);
      assert SlotAt(u, codes[j], depth[j]) == SlotAt(t, codes[j], depth[j]);
    }
    forall x | 0 <= x < |u.index| && u.index[x] >= 0
      ensures u.index[x] in live - {i} && x == SlotAt(u, codes[u.index[x]], depth[u.index[x]])
    {
      assert x != s;
      assert t.index[x] in live && x == SlotAt(t, codes[t.index[x]], depth[t.index[x]]);
      assert SlotAt(u, codes[u.index[x]], depth[u.index[x]]) == SlotAt(t, codes[t.index[x]], depth[t.index[x]]);
    }
  }

  /** Repairing the back-pointer of a moved entry: `last` is now called `i`. */
  lemma {:induction false} MoveKeeps(
    t: Table, codes: seq<int>, depth: seq<nat>, live: set<nat>, i: nat, last: nat)
    requires Indexed(t, codes, depth, live)
    requires last in live && i !in live && i < |codes| && codes[i] == codes[last]
    ensures var s := SlotAt(t, codes[last], depth[last]);
            Indexed(Write(t, s, codes[last], i), codes, depth[i := depth[last]], live - {last} + {i})
  {
    var s := SlotAt(t, codes[last], depth[last]);
    var u := Write(t, s, codes[last], i);
    var depth' := depth[i := depth[last]];
    assert Placed(t, last, codes[last], depth[last]);
    assert Shape(u);
    assert u.hash == t.hash;
    forall j | j in live - {last} + {i} ensures Placed(u, j, codes[j], depth'[j]) {
      var was := if j == i then last else j;
      assert Placed(t, was, codes[was], depth[was]);
      PathKept(t, u, s, codes[last], i, codes[was], depth[was]);
      assert SlotAt(u, codes[was], depth[was]) == SlotAt(t, codes[was], depth[was]);
      if j != i {
        SlotsDiffer(t, codes, depth, live, j, last);
      }
    }
    forall x | 0 <= x < |u.index| && u.index[x] >= 0
      ensures u.index[x] in live - {last} + {i} && x == SlotAt(u, codes[u.index[x]], depth'[u.index[x]])
    {
      if x != s {
        assert t.index[x] in live && x == SlotAt(t, codes[t.index[x]], depth[t.index[x]]);
        assert SlotAt(u, codes[u.index[x]], depth[u.index[x]]) == SlotAt(t, codes[t.index[x]], depth[t.index[x]]);
      } else {
        assert SlotAt(u, codes[i], depth'[i]) == s;
      }
    }
  }

  /** What is known about the entries that are not live does not matter. */
  lemma {:induction false} RelevantPartOnly(
    t: Table, codes: seq<int>, depth: seq<nat>, codes': seq<int>, depth': seq<nat>, live: set<nat>)
    requires Indexed(t, codes, depth, live)
    requires |codes'| == |depth'|
    requires forall i :: i in live ==> i < |codes'| && codes'[i] == codes[i] && depth'[i] == depth[i]
    ensures Indexed(t, codes', depth', live)
  {
  }

  /** A table of empty slots indexes nothing. */
  lemma {:induction false} FreshTable(t: Table, codes: seq<int>, depth: seq<nat>)
    requires |t.hash| == |t.index| > 0 && |t.hash| % BUCKET_LENGTH == 0 && SlotCount(|t.hash|)
    requires |codes| == |depth|
    requires forall s :: 0 <= s < |t.hash| ==> t.hash[s] == HASH_EMPTY && t.index[s] == INDEX_EMPTY
    ensures Indexed(t, codes, depth, {})
  {
  }

  /** Appending an entry and writing its slot. */
  lemma {:induction false} AppendKeeps(t: Table, codes: seq<int>, depth: seq<nat>, code: int, k: nat)
    requires Indexed(t, codes, depth, UpTo(|codes|))
    requires code >= 2 && k < |t.hash| && NoGap(t, code, k) && t.index[SlotAt(t, code, k)] < 0
    ensures Indexed(Write(t, SlotAt(t, code, k), code, |codes|), codes + [code], depth + [k], UpTo(|codes| + 1))
  {
    var n := |codes|;
    RelevantPartOnly(t, codes, depth, codes + [code], depth + [k], UpTo(n));
    InsertKeeps(t, codes + [code], depth + [k], UpTo(n), n, k);
    assert (depth + [k])[n := k] == depth + [k];
    assert UpTo(n) + {n} == UpTo(n + 1);
  }

  /** Deleting the last entry needs no move. */
  lemma {:induction false} DropLastKeeps(t: Table, codes: seq<int>, depth: seq<nat>)
    requires |codes| > 0 && Indexed(t, codes, depth, UpTo(|codes|) - {|codes| - 1})
    ensures Indexed(t, codes[..|codes| - 1], depth[..|codes| - 1], UpTo(|codes| - 1))
  {
    var last := |codes| - 1;
    assert UpTo(|codes|) - {last} == UpTo(last);
    RelevantPartOnly(t, codes, depth, codes[..last], depth[..last], UpTo(last));
  }

  /** Deleting entry `i` and moving the last entry into the hole. */
  lemma {:induction false} SwapDeleteKeeps(t: Table, codes: seq<int>, depth: seq<nat>, i: nat)
    requires i < |codes| - 1 && Indexed(t, codes, depth, UpTo(|codes|) - {i})
    ensures var last := |codes| - 1;
            var s := SlotAt(t, codes[last], depth[last]);
            Indexed(Write(t, s, codes[last], i), codes[i := codes[last]][..last], depth[i := depth[last]][..last], UpTo(last))
  {
    var last := |codes| - 1;
    var live, codes' := UpTo(|codes|) - {i}, codes[i := codes[last]];
    RelevantPartOnly(t, codes, depth, codes', depth, live);
    MoveKeeps(t, codes', depth, live, i, last);
    assert live - {last} + {i} == UpTo(last);
    var u := Write(t, SlotAt(t, codes[last], depth[last]), codes[last], i);
    RelevantPartOnly(u, codes', depth[i := depth[last]], codes'[..last], depth[i := depth[last]][..last], UpTo(last));
  }
}
