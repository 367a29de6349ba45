/**
 The index of the stb_ds hash map: its storage, its counters, and how it is built again.
 */
module HashIndexing {
  import opened ProbeOrder
  import opened HashTable

  // The index grows above, rebuilds above and shrinks below these counts.
  function UsedThreshold(n: nat): nat { n - n / 4 }
  function TombstoneThreshold(n: nat): nat { n / 8 + n / 16 }
  function ShrinkThreshold(n: nat): nat { if n <= BUCKET_LENGTH then 0 else n / 4 }

  /** The two thresholds together leave an empty slot. */
  lemma {:induction false} ThresholdsLeaveRoom(n: nat)
    requires SlotCount(n)
    ensures UsedThreshold(n) + TombstoneThreshold(n) < n
  {
    var e: nat :| n == BUCKET_LENGTH * Pow2(e);
  }

  lemma {:induction false} SlotCountFacts(n: nat)
    requires SlotCount(n)
    ensures n >= BUCKET_LENGTH && n % BUCKET_LENGTH == 0
    ensures SlotCount(2 * n)
    ensures n > BUCKET_LENGTH ==> SlotCount(n / 2)
  {
    var e: nat :| n == BUCKET_LENGTH * Pow2(e);
    assert 2 * n == BUCKET_LENGTH * Pow2(e + 1);
    if n > BUCKET_LENGTH {
      assert n / 2 == BUCKET_LENGTH * Pow2(e - 1);
    }
  }

  lemma {:induction false} SmallestSlotCount()
    ensures SlotCount(BUCKET_LENGTH)
  {
    assert BUCKET_LENGTH == BUCKET_LENGTH * Pow2(0);
  }

  /** stbds_hash_index: everything but the counters and the storage is set once. */
  class HashIndex {
    const slotCount: nat
    const seed: nat
    const hash: array<int>
    const index: array<int>
    var usedCount: nat
    var tombstoneCount: nat

    ghost predicate Sized() {
      SlotCount(slotCount) && hash.Length == index.Length == slotCount && hash != index
    }

    ghost function View(): Table
      reads hash, index
    {
      Table(hash[..], index[..])
    }

    /** The counters are the numbers of slots in use and of tombstones. */
    ghost predicate Counted()
      reads this, index
    {
      usedCount == Count(index[..], 0) && tombstoneCount == Count(index[..], INDEX_DELETED)
    }

    /** An index of `n` empty slots. */
    constructor (n: nat, seed: nat)
      requires SlotCount(n)
      ensures Sized() && slotCount == n && this.seed == seed
      ensures fresh(hash) && fresh(index)
      ensures usedCount == 0 && tombstoneCount == 0 && Counted()
      ensures forall s :: 0 <= s < n ==> hash[s] == HASH_EMPTY && index[s] == INDEX_EMPTY
    {
      slotCount := n;
      this.seed := seed;
      hash := new int[n](_ => HASH_EMPTY);
      index := new int[n](_ => INDEX_EMPTY);
      usedCount := 0;
      tombstoneCount := 0;
      new;
      CountUniform(index[..], INDEX_EMPTY, 0);
      CountUniform(index[..], INDEX_EMPTY, INDEX_DELETED);
    }

    method WriteSlot(s: nat, code: int, i: int)
      requires Sized() && s < slotCount
      modifies hash, index
      ensures View() == Write(old(View()), s, code, i)
    {
      hash[s] := code;
      index[s] := i;
    }

    /** The first empty place of a run over the bucket of `pos`, or `hi`. */
    method EmptyInRun(pos: nat, lo: nat, hi: nat) returns (z: nat)
      requires Sized() && Shape(View()) && pos < slotCount && lo <= hi <= BUCKET_LENGTH
      ensures lo <= z <= hi
      ensures RunAvoids(pos, lo, z, EmptySlots(View()))
      ensures z < hi ==> Place(pos, z) in EmptySlots(View())
    {
      SlotCountFacts(slotCount);
      z := lo;
      while z < hi
        invariant lo <= z <= hi
        invariant RunAvoids(pos, lo, z, EmptySlots(View()))
      {
        if hash[Place(pos, z)] == HASH_EMPTY {
          return;
        }
        z := z + 1;
      }
    }

    /** The loop that finds the first empty slot on the probe path of `code`. */
    method ProbeForEmpty(code: int) returns (slot: nat, ghost k: nat)
      requires Sized() && Shape(View()) && HasRoom(View())
      ensures StopsAt(View(), code, k, slot, EmptySlots(View()))
      ensures slot in EmptySlots(View())
    {
      hide Probing, Bucket, Count;
      SlotCountFacts(slotCount);
      ghost var t, stops, r: nat := View(), EmptySlots(View()), 0;
      var pos: nat, step := code % slotCount, BUCKET_LENGTH;
      ProbingStarts(t, code, stops);
      while true
        invariant step == BUCKET_LENGTH * (r + 1) && BUCKET_LENGTH * r < slotCount && pos < slotCount
        invariant Probing(t, code, pos, r, stops)
        decreases slotCount - BUCKET_LENGTH * r
      {
        var limit := pos % BUCKET_LENGTH;
        var z := EmptyInRun(pos, limit, BUCKET_LENGTH);
        if z < BUCKET_LENGTH {
          k := StopInFirstRun(t, code, pos, r, z, stops);
          return Place(pos, z), k;
        }
        z := EmptyInRun(pos, 0, limit);
        if z < limit {
          k := StopInSecondRun(t, code, pos, r, z, stops);
          return Place(pos, z), k;
        }
        NextRound(t, code, pos, r, stops);
        pos := (pos + step) % slotCount;
        step := step + BUCKET_LENGTH;
        r := r + 1;
      }
    }
  }

  /** An index with its entries: everything that a lookup and a rehash rely on. */
  ghost predicate Holds(t: HashIndex, codes: seq<int>, depth: seq<nat>, live: set<nat>)
    reads t, t.hash, t.index
  {
    t.Sized() && t.Counted() && Indexed(t.View(), codes, depth, live)
  }

  /** The entries whose slot in `t` is below `s`. */
  ghost predicate CopiedUpTo(t: Table, codes: seq<int>, depth: seq<nat>, done: set<nat>, s: nat)
    requires Shape(t) && |codes| == |depth| && s <= |t.index|
  {
    && (forall x :: 0 <= x < s && t.index[x] >= 0 ==> t.index[x] in done)
    && (forall i :: i in done ==> i < |codes| && SlotAt(t, codes[i], depth[i]) < s)
  }

  lemma {:induction false} CopiedAll(t: Table, codes: seq<int>, depth: seq<nat>, live: set<nat>, done: set<nat>)
    requires Indexed(t, codes, depth, live) && done <= live
    requires CopiedUpTo(t, codes, depth, done, |t.index|)
    ensures done == live
  {
    forall i | i in live ensures i in done {
      assert Placed(t, i, codes[i], depth[i]);
    }
  }

  lemma {:induction false} CopiedOneMore(
    t: Table, codes: seq<int>, depth: seq<nat>, live: set<nat>, done: set<nat>, s: nat)
    requires Indexed(t, codes, depth, live) && done <= live && s < |t.index|
    requires CopiedUpTo(t, codes, depth, done, s)
    ensures t.index[s] >= 0 ==>
              && t.index[s] in live - done
              && t.hash[s] == codes[t.index[s]] >= 2
              && CopiedUpTo(t, codes, depth, done + {t.index[s]}, s + 1)
    ensures t.index[s] < 0 ==> CopiedUpTo(t, codes, depth, done, s + 1)
  {
    if t.index[s] >= 0 {
      assert Placed(t, t.index[s], codes[t.index[s]], depth[t.index[s]]);
    }
  }

  /** Writing one slot, as a step of the copying loop sees it. */
  lemma {:induction false} CopyStep(
    t: Table, codes: seq<int>, depth: seq<nat>, done: set<nat>, i: nat, k: nat, slot: nat)
    requires Indexed(t, codes, depth, done)
    requires i !in done && i < |codes| && codes[i] >= 2
    requires StopsAt(t, codes[i], k, slot, EmptySlots(t)) && slot in EmptySlots(t)
    ensures var u := Write(t, slot, codes[i], i);
            && Indexed(u, codes, depth[i := k], done + {i})
            && Count(u.index, 0) == Count(t.index, 0) + 1
            && Count(u.index, INDEX_DELETED) == Count(t.index, INDEX_DELETED)
  {
    InsertKeeps(t, codes, depth, done, i, k);
    CountUpdate(t.index, slot, i, 0);
    CountUpdate(t.index, slot, i, INDEX_DELETED);
  }

  /** Puts one entry of the old index into the first empty slot of its probe path. */
  method CopyEntry(t: HashIndex, code: int, index: int, ghost codes: seq<int>, ghost placed: seq<nat>, ghost done: set<nat>)
    returns (ghost k: nat)
    requires t.Sized() && Indexed(t.View(), codes, placed, done) && HasRoom(t.View())
    requires 0 <= index < |codes| && index !in done && code == codes[index] >= 2
    modifies t.hash, t.index
    ensures Indexed(t.View(), codes, placed[index := k], done + {index})
    ensures Count(t.View().index, 0) == old(Count(t.View().index, 0)) + 1
    ensures Count(t.View().index, INDEX_DELETED) == old(Count(t.View().index, INDEX_DELETED))
  {
    var slot, depth := t.ProbeForEmpty(code);
    k := depth;
    CopyStep(t.View(), codes, placed, done, index, k, slot);
    t.WriteSlot(slot, code, index);
  }

  /** What the copying loop keeps: the first `s` slots of `from` are in `t`. */
  ghost predicate Copying(
    t: Table, from: Table, codes: seq<int>, depth: seq<nat>, live: set<nat>, placed: seq<nat>, done: set<nat>, s: nat)
  {
    && |placed| == |codes| && Indexed(from, codes, depth, live) && s <= |from.index|
    && done <= live && Indexed(t, codes, placed, done)
    && CopiedUpTo(from, codes, depth, done, s)
    && Count(t.index, 0) == Count(from.index[..s], 0)
    && Count(t.index, INDEX_DELETED) == 0
  }

  lemma {:induction false} RoomForNext(t: Table, from: seq<int>, s: nat)
    requires s < |from| && from[s] >= 0 && Count(from, 0) < |t.index|
    requires Count(t.index, 0) == Count(from[..s], 0) && Count(t.index, INDEX_DELETED) == 0
    ensures HasRoom(t)
    ensures Count(from[..s + 1], 0) == Count(from[..s], 0) + 1
  {
    CountPrefix(from, s + 1, 0);
    assert from[..s + 1][..s] == from[..s];
  }

  lemma {:induction false} SkipUnused(from: seq<int>, s: nat)
    requires s < |from| && from[s] < 0
    ensures Count(from[..s + 1], 0) == Count(from[..s], 0)
  {
    assert from[..s + 1][..s] == from[..s];
  }

  /** One turn of the copying loop. */
  method CopySlot(
    t: HashIndex, ot: HashIndex, s: nat,
    ghost codes: seq<int>, ghost depth: seq<nat>, ghost live: set<nat>, ghost placed: seq<nat>, ghost done: set<nat>)
    returns (ghost placed': seq<nat>, ghost done': set<nat>)
    requires t.Sized() && ot.Sized() && {t.hash, t.index} !! {ot.hash, ot.index}
    requires s < ot.slotCount && Count(ot.View().index, 0) < t.slotCount
    requires Copying(t.View(), ot.View(), codes, depth, live, placed, done, s)
    modifies t.hash, t.index
    ensures Copying(t.View(), ot.View(), codes, depth, live, placed', done', s + 1)
  {
    hide Indexed, Bucket, Count;
    placed', done' := placed, done;
    CopiedOneMore(ot.View(), codes, depth, live, done, s);
    if ot.index[s] >= 0 {
      RoomForNext(t.View(), ot.View().index, s);
      ghost var k := CopyEntry(t, ot.hash[s], ot.index[s], codes, placed, done);
      placed', done' := placed[ot.index[s] := k], done + {ot.index[s]};
    } else {
      SkipUnused(ot.View().index, s);
    }
  }

  lemma {:induction false} CopyStarts(t: Table, from: Table, codes: seq<int>, depth: seq<nat>, live: set<nat>)
    requires Indexed(from, codes, depth, live)
    requires |t.hash| == |t.index| > 0 && |t.hash| % BUCKET_LENGTH == 0 && SlotCount(|t.hash|)
    requires forall s :: 0 <= s < |t.hash| ==> t.hash[s] == HASH_EMPTY && t.index[s] == INDEX_EMPTY
    ensures Copying(t, from, codes, depth, live, depth, {}, 0)
  {
    FreshTable(t, codes, depth);
    CountUniform(t.index, INDEX_EMPTY, 0);
    CountUniform(t.index, INDEX_EMPTY, INDEX_DELETED);
  }

  lemma {:induction false} CopyEnds(
    t: Table, from: Table, codes: seq<int>, depth: seq<nat>, live: set<nat>, placed: seq<nat>, done: set<nat>)
    requires Copying(t, from, codes, depth, live, placed, done, |from.index|)
    ensures Indexed(t, codes, placed, live) && |placed| == |codes|
    ensures Count(t.index, 0) == Count(from.index, 0) && Count(t.index, INDEX_DELETED) == 0
  {
    assert from.index[..|from.index|] == from.index;
    CopiedAll(from, codes, depth, live, done);
  }

  /** stbds_make_hash_index with an old index: every entry is placed anew, tombstones are dropped. */
  method Rehash(n: nat, ot: HashIndex, ghost codes: seq<int>, ghost depth: seq<nat>, ghost live: set<nat>)
    returns (t: HashIndex, ghost placed: seq<nat>)
    requires SlotCount(n) && Holds(ot, codes, depth, live) && ot.usedCount < n
    ensures fresh(t) && fresh(t.hash) && fresh(t.index)
    ensures Holds(t, codes, placed, live) && t.slotCount == n && t.seed == ot.seed
    ensures t.usedCount == ot.usedCount && t.tombstoneCount == 0 && |placed| == |codes|
  {
    hide Copying, Bucket;
    SlotCountFacts(n);
    t := new HashIndex(n, ot.seed);
    CopyStarts(t.View(), ot.View(), codes, depth, live);
    placed := depth;
    ghost var done: set<nat> := {};
    var s := 0;
    while s < ot.slotCount
      invariant s <= ot.slotCount && t.tombstoneCount == 0
      invariant ot.View() == old(ot.View())
      invariant Copying(t.View(), ot.View(), codes, depth, live, placed, done, s)
    {
      placed, done := CopySlot(t, ot, s, codes, depth, live, placed, done);
      s := s + 1;
    }
    CopyEnds(t.View(), ot.View(), codes, depth, live, placed, done);
    t.usedCount := ot.usedCount;
  }
}
