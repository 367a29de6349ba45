/**
 The order in which the stb_ds hash index visits its slots.

 A table has `slotCount == 8 * 2^e` slots in buckets of eight. A probe starts at
 `hash mod slotCount`, walks its bucket from that slot to the end and then from the
 beginning, and jumps to another bucket by steps of 1, 2, 3, ... buckets. The facts here
 are about arithmetic only: every slot is visited exactly once in the first
 `slotCount` probes.
 */
module ProbeOrder {

  const BUCKET_LENGTH := 8

  function Pow2(e: nat): (p: nat)
    ensures p > 0
  {
    if e == 0 then 1 else 2 * Pow2(e - 1)
  }

  /** A legal number of slots: eight times a power of two. */
  ghost predicate SlotCount(n: nat) {
    exists e: nat :: n == BUCKET_LENGTH * Pow2(e)
  }

  /** The bucket of round `r` when the first bucket is `b` and there are `m` buckets. */
  function Bucket(b: nat, m: nat, r: nat): (c: nat)
    requires b < m
    ensures c < m
  {
    if r == 0 then b else (Bucket(b, m, r - 1) + r) % m
  }

  /** The `k`-th slot a probe from `start` looks at, counting from zero. */
  function ProbeSlot(start: nat, n: nat, k: nat): (s: nat)
    requires start < n && n % BUCKET_LENGTH == 0
    ensures s < n
  {
    BUCKET_LENGTH * Bucket(start / BUCKET_LENGTH, n / BUCKET_LENGTH, k / BUCKET_LENGTH)
    + (start + k) % BUCKET_LENGTH
  }

  function Triangular(r: nat): nat {
    if r == 0 then 0 else Triangular(r - 1) + r
  }

  lemma {:induction false} TriangularClosed(r: nat)
    ensures 2 * Triangular(r) == r * (r + 1)
  {
    if r > 0 {
      TriangularClosed(r - 1);
      assert r * (r + 1) == (r - 1) * r + 2 * r;
    }
  }

  /** `a` and `b` differ by a multiple of `m`. */
  ghost predicate Congruent(a: int, b: int, m: nat) {
    exists q: int :: a - b == q * m
  }

  lemma {:induction false} ModCongruent(a: int, m: nat)
    requires m > 0
    ensures Congruent(a, a % m, m)
  {
    assert a - a % m == (a / m) * m;
  }

  lemma {:induction false} CongruentDifference(a: int, b: int, c: int, m: nat)
    requires Congruent(c, a, m) && Congruent(c, b, m)
    ensures Congruent(a, b, m)
  {
    var q: int :| c - a == q * m;
    var p: int :| c - b == p * m;
    assert a - b == (p - q) * m;
  }

  lemma {:induction false} BucketIsTriangular(b: nat, m: nat, r: nat)
    requires b < m
    ensures Congruent(Bucket(b, m, r), b + Triangular(r), m)
  {
    if r == 0 {
      assert b - b == 0 * m;
    } else {
      BucketIsTriangular(b, m, r - 1);
      var prev := Bucket(b, m, r - 1);
      ModCongruent(prev + r, m);
      var q: int :| (prev + r) - Bucket(b, m, r) == q * m;
      var p: int :| prev - (b + Triangular(r - 1)) == p * m;
      assert Bucket(b, m, r) - (b + Triangular(r)) == (p - q) * m;
    }
  }

  lemma {:induction false} OddProduct(x: int, y: int)
    requires x % 2 == 1 && y % 2 == 1
    ensures (x * y) % 2 == 1
  {
    var a, b := x / 2, y / 2;
    assert x * y == 2 * (2 * (a * b) + a + b) + 1 by {
      assert x == 2 * a + 1 && y == 2 * b + 1;
    }
  }

  lemma {:induction false} Doubling(q: int, p: int)
    ensures q * (2 * p) == 2 * (q * p)
  {
  }

  /** A power of two dividing `x * y` with `x` odd divides `y`. */
  lemma {:induction false} OddFactor(x: int, y: int, q: int, e: nat)
    requires x % 2 == 1
    requires x * y == q * Pow2(e)
    ensures exists d: int :: y == d * Pow2(e)
    decreases e
  {
    if e == 0 {
      assert y == y * Pow2(e);
    } else {
      assert x * y == 2 * (q * Pow2(e - 1)) by {
        assert q * Pow2(e) == 2 * (q * Pow2(e - 1));
      }
      var z := y / 2;
      assert y == 2 * z by {
        if y % 2 == 1 {
          OddProduct(x, y);
        }
      }
      assert x * z == q * Pow2(e - 1) by {
        assert x * y == 2 * (x * z);
      }
      OddFactor(x, z, q, e - 1);
      var d: int :| z == d * Pow2(e - 1);
      assert y == d * Pow2(e);
    }
  }

  lemma {:induction false} MultipleBounds(d: int, m: nat)
    ensures d <= 0 ==> d * m <= 0
    ensures d >= 1 ==> d * m >= m
  {
    if d >= 1 {
      assert d * m == m + (d - 1) * m;
    }
  }

  lemma {:induction false} DistributeOver(m: int, a: int, b: int)
    ensures m * (a - b) == m * a - m * b
    ensures m * (a + b) == m * a + m * b
  {
  }

  /** `2 (T(a) - T(b)) == (a - b) (a + b + 1)`. */
  lemma {:induction false} TriangularDifference(a: nat, b: nat)
    ensures 2 * (Triangular(a) - Triangular(b)) == (a - b) * (a + b + 1)
  {
    TriangularClosed(a);
    TriangularClosed(b);
    assert (a - b) * (a + b + 1) == a * (a + 1) - b * (b + 1);
  }

  /** A product with one odd factor and both factors in `1 .. p-1` is no multiple of `p == 2^e`. */
  lemma {:induction false} NotAMultiple(x: int, y: int, q: int, e: nat)
    requires 0 < x < Pow2(e) && 0 < y < Pow2(e)
    requires x % 2 == 1 || y % 2 == 1
    ensures x * y != q * Pow2(e)
  {
    if x * y == q * Pow2(e) {
      if x % 2 == 1 {
        OddFactor(x, y, q, e);
        var d: int :| y == d * Pow2(e);
        MultipleBounds(d, Pow2(e));
      } else {
        assert y * x == q * Pow2(e);
        OddFactor(y, x, q, e);
        var d: int :| x == d * Pow2(e);
        MultipleBounds(d, Pow2(e));
      }
    }
  }

  /** Triangular numbers are pairwise different modulo a power of two. */
  lemma {:induction false} TriangularDistinct(a: nat, b: nat, q: int, e: nat)
    requires b < a < Pow2(e)
    ensures Triangular(a) - Triangular(b) != q * Pow2(e)
  {
    TriangularDifference(a, b);
    NotAMultiple(a - b, a + b + 1, q, e + 1);
    Doubling(q, Pow2(e));
  }

  lemma {:induction false} BucketsDistinct(b: nat, e: nat, r1: nat, r2: nat)
    requires b < Pow2(e) && r1 < r2 < Pow2(e)
    ensures Bucket(b, Pow2(e), r1) != Bucket(b, Pow2(e), r2)
  {
    var m := Pow2(e);
    if Bucket(b, m, r1) == Bucket(b, m, r2) {
      BucketIsTriangular(b, m, r1);
      BucketIsTriangular(b, m, r2);
      CongruentDifference(b + Triangular(r2), b + Triangular(r1), Bucket(b, m, r1), m);
      var q: int :| (b + Triangular(r2)) - (b + Triangular(r1)) == q * m;
      assert Triangular(r2) - Triangular(r1) == q * m;
      TriangularDistinct(r2, r1, q, e);
    }
  }

  /** No slot is visited twice in the first `n` probes. */
  lemma {:induction false} ProbeInjective(start: nat, n: nat, j: nat, k: nat)
    requires SlotCount(n) && start < n
    requires j < k < n
    ensures ProbeSlot(start, n, j) != ProbeSlot(start, n, k)
  {
    var e: nat :| n == BUCKET_LENGTH * Pow2(e);
    if j / 8 == k / 8 {
      assert (start + j) % 8 != (start + k) % 8;
    } else {
      BucketsDistinct(start / 8, e, j / 8, k / 8);
    }
  }

  ghost predicate Injective(p: seq<nat>) {
    forall i, j :: 0 <= i < j < |p| ==> p[i] != p[j]
  }

  ghost function Elements(p: seq<nat>): (v: set<nat>) {
    set x | x in p
  }

  lemma {:induction false} InjectiveSize(p: seq<nat>)
    requires Injective(p)
    ensures |Elements(p)| == |p|
  {
    if p != [] {
      var q := p[..|p| - 1];
      InjectiveSize(q);
      assert Elements(p) == Elements(q) + {p[|p| - 1]};
    }
  }

  lemma {:induction false} BoundedSetSize(v: set<nat>, n: nat)
    requires forall s :: s in v ==> s < n
    ensures |v| <= n
    ensures |v| == n ==> forall s: nat :: s < n ==> s in v
  {
    if n == 0 {
      assert v == {};
    } else {
      BoundedSetSize(v - {n - 1}, n - 1);
    }
  }

  /** Pigeonhole: an injective sequence of `n` numbers below `n` holds all of them. */
  lemma {:induction false} InjectiveCovers(p: seq<nat>, s: nat)
    requires Injective(p) && s < |p|
    requires forall i :: 0 <= i < |p| ==> p[i] < |p|
    ensures s in p
  {
    InjectiveSize(p);
    BoundedSetSize(Elements(p), |p|);
    assert s in Elements(p);
  }

  /** The first `n` probes, in order. */
  ghost function Order(start: nat, n: nat): (p: seq<nat>)
    requires start < n && n % BUCKET_LENGTH == 0
  {
    seq(n, (k: nat) => ProbeSlot(start, n, k))
  }

  /** The first `n` probes are a permutation of the slots. */
  lemma {:induction false} ProbeIsPermutation(start: nat, n: nat)
    requires SlotCount(n) && start < n
    ensures Injective(Order(start, n)) && |Order(start, n)| == n
    ensures forall s: nat :: s < n ==> s in Order(start, n)
  {
    var p := Order(start, n);
    forall j, k | 0 <= j < k < n ensures p[j] != p[k] {
      ProbeInjective(start, n, j, k);
    }
    forall s: nat | s < n ensures s in p {
      InjectiveCovers(p, s);
    }
  }

  /** The probe that reaches a given slot. */
  lemma {:induction false} ProbeReaches(start: nat, n: nat, s: nat) returns (k: nat)
    requires SlotCount(n) && start < n && s < n
    ensures k < n && ProbeSlot(start, n, k) == s
  {
    ProbeIsPermutation(start, n);
    assert s in Order(start, n);
    k :| 0 <= k < n && Order(start, n)[k] == s;
  }

  /** The probe loop has finished `r` rounds and stands at `pos`. */
  ghost predicate AtRound(start: nat, n: nat, pos: nat, r: nat)
    requires start < n && n % BUCKET_LENGTH == 0
  {
    && pos < n
    && pos % BUCKET_LENGTH == start % BUCKET_LENGTH
    && pos / BUCKET_LENGTH == Bucket(start / BUCKET_LENGTH, n / BUCKET_LENGTH, r)
  }

  /** One jump of the loop keeps it in step with the probe order. */
  lemma {:induction false} ProbeJump(start: nat, n: nat, pos: nat, r: nat)
    requires start < n && n % BUCKET_LENGTH == 0
    requires AtRound(start, n, pos, r)
    ensures AtRound(start, n, (pos + BUCKET_LENGTH * (r + 1)) % n, r + 1)
  {
    var b, m := pos / 8, n / 8;
    JumpPosition(b, pos % 8, m, r + 1);
    EightParts((b + (r + 1)) % m, pos % 8);
    assert (pos + BUCKET_LENGTH * (r + 1)) % n == 8 * ((b + (r + 1)) % m) + pos % 8;
    assert Bucket(start / BUCKET_LENGTH, m, r + 1) == (b + (r + 1)) % m;
  }

  lemma {:induction false} EightParts(d: nat, place: nat)
    requires place < 8
    ensures (8 * d + place) / 8 == d && (8 * d + place) % 8 == place
  {
  }

  /** A jump by whole buckets moves the bucket and keeps the place in it. */
  lemma {:induction false} JumpPosition(bucket: nat, place: nat, m: nat, jump: nat)
    requires place < 8 && m > 0
    ensures (8 * bucket + place + 8 * jump) % (8 * m) == 8 * ((bucket + jump) % m) + place
  {
    var q, d := (bucket + jump) / m, (bucket + jump) % m;
    EightTimes(m, q);
    RemainderUnique(8 * bucket + place + 8 * jump, 8 * m, q, 8 * d + place);
  }

  lemma {:induction false} EightTimes(m: nat, q: nat)
    ensures (8 * m) * q == 8 * (m * q)
  {
  }

  lemma {:induction false} RemainderUnique(a: nat, n: nat, q: int, d: nat)
    requires a == n * q + d && d < n
    ensures a % n == d
  {
    var p, c := a / n, a % n;
    assert a == n * p + c;
    DistributeOver(n, q, p);
    MultipleBounds(q - p, n);
    MultipleBounds(p - q, n);
    DistributeOver(n, p, q);
  }

  /** Slot `i` of the bucket of `pos`. */
  function Place(pos: nat, i: nat): (s: nat) {
    pos - pos % BUCKET_LENGTH + i
  }

  /** The probe number of place `i` of the bucket in round `r`: first from `low` up, then from 0. */
  function ProbeNumber(low: nat, r: nat, i: nat): (k: nat)
    requires low < BUCKET_LENGTH && i < BUCKET_LENGTH
  {
    BUCKET_LENGTH * r + if low <= i then i - low else BUCKET_LENGTH - low + i
  }

  lemma {:induction false} ProbeNumberFacts(start: nat, r: nat, i: nat)
    requires i < BUCKET_LENGTH
    ensures var k := ProbeNumber(start % BUCKET_LENGTH, r, i);
            k / BUCKET_LENGTH == r && (start + k) % BUCKET_LENGTH == i
  {
  }

  /** The two runs over a bucket look at the slots that the probe order names. */
  lemma {:induction false} RoundSlot(start: nat, n: nat, pos: nat, r: nat, i: nat)
    requires start < n && n % BUCKET_LENGTH == 0 && i < BUCKET_LENGTH
    requires AtRound(start, n, pos, r)
    ensures Place(pos, i) == ProbeSlot(start, n, ProbeNumber(pos % BUCKET_LENGTH, r, i))
  {
    ProbeNumberFacts(start, r, i);
  }

  // ------------------------------------------------------------------ masks

  /** Bitwise and of two naturals. */
  function And(x: nat, y: nat): nat {
    if x == 0 || y == 0 then 0
    else 2 * And(x / 2, y / 2) + if x % 2 == 1 && y % 2 == 1 then 1 else 0
  }

  lemma {:induction false} RemainderOfHalf(x: nat, p: nat)
    requires p > 0
    ensures x % (2 * p) == 2 * ((x / 2) % p) + x % 2
  {
    var q, d := (x / 2) / p, (x / 2) % p;
    Doubling(q, p);
    assert x / 2 == p * q + d;
    assert (2 * p) * q == 2 * (p * q);
    RemainderUnique(x, 2 * p, q, 2 * d + x % 2);
  }

  /** `x & (2^e - 1)` is `x mod 2^e`: why masking is modelled by a remainder. */
  lemma {:induction false} MaskIsRemainder(x: nat, e: nat)
    ensures And(x, Pow2(e) - 1) == x % Pow2(e)
    decreases e
  {
    if e > 0 {
      var p := Pow2(e - 1);
      MaskIsRemainder(x / 2, e - 1);
      RemainderOfHalf(x, p);
      assert (2 * p - 1) / 2 == p - 1;
      assert And(x, 2 * p - 1) == 2 * And(x / 2, p - 1) + x % 2;
    }
  }
}
