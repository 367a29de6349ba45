/**
 Small arithmetic that the request path of a node relies on: the number of request slots,
 the slot of a ticket, and the deadline of a timed wait.
 */
module Deadline {
  import opened ProbeOrder

  const TICKET_WRAP := 0x1_0000_0000
  const REQUEST_COUNT_INIT := 16
  const REQUEST_TIMEOUT_MAX := 10000
  const NANOS := 1_000_000_000
  const NANOS_PER_MILLI := 1_000_000

  // ------------------------------------------------------------------ slots

  /** A slot count that the sizing loop can produce. */
  ghost predicate PowerCount(n: int) {
    exists k: nat :: n == REQUEST_COUNT_INIT * Pow2(k)
  }

  /**
   HC_GETMINPOW as hnode_init uses it, on a 32-bit int. The loop ends without a signed
   overflow exactly when the wanted count is at most 2^30; then the result is the least
   `16 * 2^k` that covers the wanted count.
   */
  method SlotsFor(wanted: int) returns (count: int, overflow: bool)
    requires -0x8000_0000 <= wanted < 0x8000_0000
    ensures overflow <==> wanted > 0x4000_0000
    ensures !overflow ==> PowerCount(count) && wanted <= count <= 0x4000_0000
    ensures !overflow ==> forall k: nat :: wanted <= REQUEST_COUNT_INIT * Pow2(k) ==> count <= REQUEST_COUNT_INIT * Pow2(k)
  {
    count, overflow := REQUEST_COUNT_INIT, false;
    ghost var e: nat := 0;
    LargestCount();
    while count < wanted
      invariant count == REQUEST_COUNT_INIT * Pow2(e) && e <= 26
      invariant e > 0 ==> REQUEST_COUNT_INIT * Pow2(e - 1) < wanted
      decreases wanted - count
    {
      if count > 0x3fff_ffff {
        Pow2Monotone(26, e);
        return count, true;
      }
      Pow2Bounded(e);
      count := count * 2;
      e := e + 1;
    }
    Pow2Monotone(e, 26);
    forall k: nat | wanted <= REQUEST_COUNT_INIT * Pow2(k) ensures count <= REQUEST_COUNT_INIT * Pow2(k) {
      if k < e {
        Pow2Monotone(k, e - 1);
      } else {
        Pow2Monotone(e, k);
      }
    }
  }

  lemma {:induction false} LargestCount()
    ensures REQUEST_COUNT_INIT * Pow2(26) == 0x4000_0000
  {
    assert Pow2(10) == 1024;
    assert Pow2(20) == 1024 * Pow2(10) by {
      assert Pow2(15) == 32 * Pow2(10);
    }
    assert Pow2(26) == 64 * Pow2(20);
  }

  lemma {:induction false} Pow2Monotone(a: nat, b: nat)
    ensures a <= b ==> Pow2(a) <= Pow2(b)
    ensures a < b ==> Pow2(a) < Pow2(b)
  {
    if a < b {
      Pow2Monotone(a, b - 1);
    }
  }

  lemma {:induction false} Pow2Bounded(e: nat)
    requires REQUEST_COUNT_INIT * Pow2(e) <= 0x3fff_ffff
    ensures e < 26
  {
    LargestCount();
    Pow2Monotone(26, e);
  }

  lemma {:induction false} Pow2Sum(a: nat, b: nat)
    ensures Pow2(a + b) == Pow2(a) * Pow2(b)
    decreases b
  {
    if b == 0 {
      assert Pow2(a) * 1 == Pow2(a);
    } else {
      Pow2Sum(a, b - 1);
      Doubling(Pow2(a), Pow2(b - 1));
    }
  }

  lemma {:induction false} Regroup(a: nat, b: nat)
    ensures (REQUEST_COUNT_INIT * a) * (4 * b) == 64 * (a * b)
  {
  }

  /** Every slot count divides the range of the 32-bit ticket counter. */
  lemma {:induction false} SlotCountDividesWrap(n: nat) returns (m: nat)
    requires PowerCount(n) && n <= 0x4000_0000
    ensures TICKET_WRAP == n * m
  {
    var k: nat :| n == REQUEST_COUNT_INIT * Pow2(k);
    LargestCount();
    Pow2Monotone(26, k);
    var a, b := Pow2(k), Pow2(26 - k);
    m := 4 * b;
    Pow2Sum(k, 26 - k);
    Regroup(a, b);
  }

  lemma {:induction false} RemainderOfRemainder(a: nat, n: nat, m: nat)
    requires n > 0 && m > 0
    ensures n * m > 0 && (a % (n * m)) % n == a % n
  {
    var w := n * m;
    MultipleBounds(m, n);
    var q, r := a / w, a % w;
    var p, d := r / n, r % n;
    assert a == w * q + r && r == n * p + d;
    assert w * q == n * (m * q);
    DistributeOver(n, m * q, p);
    RemainderUnique(a, n, m * q + p, d);
  }

  lemma {:induction false} NearbyRemaindersDiffer(a: nat, b: nat, n: nat)
    requires a < b < a + n
    ensures a % n != b % n
  {
    if a % n == b % n {
      DistributeOver(n, b / n, a / n);
      MultipleBounds(b / n - a / n, n);
    }
  }

  /** As many consecutive tickets as there are slots use different slots, also across the wrap. */
  lemma {:induction false} ConsecutiveTicketsUseDistinctSlots(a: nat, b: nat, n: nat)
    requires PowerCount(n) && n <= 0x4000_0000
    requires a < b < a + n
    ensures (a % TICKET_WRAP) % n != (b % TICKET_WRAP) % n
  {
    var m := SlotCountDividesWrap(n);
    RemainderOfRemainder(a, n, m);
    RemainderOfRemainder(b, n, m);
    NearbyRemaindersDiffer(a, b, n);
  }

  // ------------------------------------------------------------------ deadlines

  datatype Time = Time(sec: int, nsec: int)

  function Nanos(t: Time): int {
    t.sec * NANOS + t.nsec
  }

  /** What pthread_cond_timedwait accepts; it answers EINVAL to anything else. */
  predicate Normalised(t: Time) {
    0 <= t.nsec < NANOS
  }

  function ClampTimeout(timeout: nat): nat {
    if timeout > REQUEST_TIMEOUT_MAX then REQUEST_TIMEOUT_MAX else timeout
  }

  /** hnode_time_offset: one carry, whatever the offset. */
  function OffsetBy(t: Time, mill: nat): (u: Time)
    ensures Nanos(u) == Nanos(t) + mill * NANOS_PER_MILLI
  {
    var nsec := t.nsec + mill * NANOS_PER_MILLI;
    if nsec >= NANOS then Time(t.sec + 1, nsec - NANOS) else Time(t.sec, nsec)
  }

  /** The single carry is enough exactly when the sum stays below two seconds. */
  lemma {:induction false} OffsetNormalisedIff(t: Time, mill: nat)
    requires Normalised(t)
    ensures Normalised(OffsetBy(t, mill)) <==> t.nsec + mill * NANOS_PER_MILLI < 2 * NANOS
    ensures mill <= 1000 ==> Normalised(OffsetBy(t, mill))
  {
  }

  /**
   In numbers: a request with a timeout of up to 10000 ms has its deadline that many milliseconds after it was sent,
   and one with a longer timeout 10000 ms after.
   */
  lemma {:induction false} DeadlineInNumbers(t: Time, timeout: nat)
    ensures var u, ms := OffsetBy(t, ClampTimeout(timeout)), if timeout <= 10000 then timeout else 10000;
            && (u.sec - t.sec) * 1_000_000_000 + (u.nsec - t.nsec) == ms * 1_000_000
            && (0 <= t.nsec < 1_000_000_000 ==>
                  (Normalised(u) <==> t.nsec + ms * 1_000_000 < 2_000_000_000))
  {
  }

  /** The in-place form of the source. */
  class Timespec {
    var sec: int
    var nsec: int

    constructor (t: Time)
      ensures sec == t.sec && nsec == t.nsec
    {
      sec, nsec := t.sec, t.nsec;
    }

    method Offset(mill: nat)
      modifies this
      ensures Time(sec, nsec) == OffsetBy(old(Time(sec, nsec)), mill)
    {
      nsec := nsec + mill * NANOS_PER_MILLI;
      if nsec >= NANOS {
        sec := sec + 1;
        nsec := nsec - NANOS;
      }
    }
  }
}
