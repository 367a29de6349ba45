/**
 The object pool of libhv as interleaved steps. Borrow takes the mutex twice: once to look for an idle
 object, and again to decide whether to create one, to wait, or to give up. Creation runs
 without the mutex.
 */
module ObjectPool {
  import opened Sequences

  datatype Option<T> = None | Some(value: T)

  /** Where a call of Borrow stands. */
  datatype Call =
    | Looking                      // before the first look at the idle list
    | Missed                       // found nothing, mutex released
    | Creating                     // counted, creating without the mutex
    | Created(p: Option<nat>)      // created or failed, mutex not yet back
    | Waiting                      // in the timed wait, mutex released

  /** A borrow that is over: the call of Borrow, or None for TryBorrow, and what it returned. */
  datatype Ended = Ended(who: Option<nat>, got: Option<nat>)

  /**
   `lent` lists the objects in the hands of borrowers, one entry for each loan; `start` is how many
   objects the constructor made; `ended` is history: all borrows that are over, in order.
   */
  datatype Pool = Pool(
    count: int, max: int, waits: bool, idle: seq<nat>, lent: seq<nat>, calls: map<nat, Call>, known: set<nat>, start: nat,
    ended: seq<Ended>)

  datatype Step =
    | TryBorrow
    | Begin(c: nat)
    | Look(c: nat)
    | Decide(c: nat)
    | Create(c: nat, p: Option<nat>)
    | Finish(c: nat)
    | TimeOut(c: nat)
    | Wake(c: nat)
    | Return(o: nat)
    | Add(o: nat)
    | Remove(o: nat)

  /** The constructor: of the objects it tried to create, those in `idle` came into being. */
  function Init(idle: seq<nat>, max: int, waits: bool): Pool {
    Pool(|idle|, max, waits, idle, [], map[], set o | o in idle, |idle|, [])
  }

  /** Borrowers return what they hold, once; creators and Add bring objects the pool does not know. */
  predicate Enabled(s: Pool, step: Step) {
    match step
    case TryBorrow => true
    case Begin(c) => c !in s.calls
    case Look(c) => c in s.calls && s.calls[c].Looking?
    case Decide(c) => c in s.calls && s.calls[c].Missed?
    case Create(c, p) => c in s.calls && s.calls[c].Creating? && (p.Some? ==> p.value !in s.known)
    case Finish(c) => c in s.calls && s.calls[c].Created?
    case TimeOut(c) => c in s.calls && s.calls[c].Waiting?
    case Wake(c) => c in s.calls && s.calls[c].Waiting?
    case Return(o) => o in s.lent
    case Add(o) => o !in s.known
    case Remove(_) => true
  }

  /** The loop of Remove: erases the first occurrence. */
  function RemoveFirst(xs: seq<nat>, x: nat): seq<nat> {
    if xs == [] then [] else if xs[0] == x then xs[1..] else [xs[0]] + RemoveFirst(xs[1..], x)
  }

  /** Takes the first idle object, if there is one. */
  function TakeIdle(s: Pool, who: Option<nat>): Pool {
    if s.idle == [] then Recorded(s, who, None)
    else Recorded(s.(idle := s.idle[1..], lent := s.lent + [s.idle[0]]), who, Some(s.idle[0]))
  }

  function Recorded(s: Pool, who: Option<nat>, got: Option<nat>): Pool {
    s.(ended := s.ended + [Ended(who, got)])
  }

  /** The end of a call of Borrow. */
  function End(s: Pool, c: nat, got: Option<nat>): Pool {
    Recorded(s.(calls := s.calls - {c}), Some(c), got)
  }

  function Apply(s: Pool, step: Step): Pool
    requires Enabled(s, step)
  {
    match step
    case TryBorrow => TakeIdle(s, None)
    case Begin(c) => s.(calls := s.calls[c := Looking])
    case Look(c) =>
      if s.idle != [] then TakeIdle(s, Some(c)).(calls := s.calls - {c}) else s.(calls := s.calls[c := Missed])
    case Decide(c) =>
      if s.count < s.max then s.(count := s.count + 1, calls := s.calls[c := Creating])
      else if s.waits then s.(calls := s.calls[c := Waiting])
      else End(s, c, None)
    case Create(c, p) =>
      s.(calls := s.calls[c := Created(p)], known := if p.Some? then s.known + {p.value} else s.known)
    case Finish(c) =>
      var p := s.calls[c].p;
      if p.Some? then End(s.(lent := s.lent + [p.value]), c, p) else End(s.(count := s.count - 1), c, None)
    case TimeOut(c) => End(s, c, None)
    case Wake(c) => TakeIdle(s, Some(c)).(calls := s.calls - {c})
    case Return(o) => s.(idle := s.idle + [o], lent := RemoveFirst(s.lent, o))
    case Add(o) =>
      if s.count >= s.max then s
      else s.(idle := s.idle + [o], count := s.count + 1, known := s.known + {o})
    case Remove(o) =>
      if o in s.idle then s.(idle := RemoveFirst(s.idle, o), count := s.count - 1) else s
  }

  /** The calls that have been counted for an object that is not yet in anybody's hands. */
  function UnderCreation(calls: map<nat, Call>): set<nat> {
    set c | c in calls && Counted(calls[c])
  }

  ghost predicate Pending(s: Pool, c: nat, o: nat) {
    c in s.calls && s.calls[c] == Created(Some(o))
  }

  /** Conservation, the bound, and no object in two places. */
  ghost predicate Inv(s: Pool) {
    && s.count == |s.idle| + |s.lent| + |UnderCreation(s.calls)|
    && (s.count <= s.max || s.count <= s.start)
    && NoDup(s.idle + s.lent)
    && (forall o :: o in s.idle + s.lent ==> o in s.known)
    && (forall c, o :: Pending(s, c, o) ==> o in s.known && o !in s.idle + s.lent)
    && (forall c, d, o :: Pending(s, c, o) && Pending(s, d, o) ==> c == d)
  }

  // ------------------------------------------------------------------ sequences

  lemma {:induction false} RemoveFirstFacts(xs: seq<nat>, x: nat)
    requires NoDup(xs) && x in xs
    ensures |RemoveFirst(xs, x)| == |xs| - 1 && NoDup(RemoveFirst(xs, x))
    ensures forall y :: y in RemoveFirst(xs, x) <==> y in xs && y != x
  {
    assert xs == [xs[0]] + xs[1..];
    NoDupSplit([xs[0]], xs[1..]);
    if xs[0] != x {
      RemoveFirstFacts(xs[1..], x);
      NoDupJoin([xs[0]], RemoveFirst(xs[1..], x));
    }
  }

  predicate Counted(call: Call) {
    call.Creating? || call.Created?
  }

  lemma {:induction false} CreationUpdate(calls: map<nat, Call>, c: nat, call: Call)
    ensures UnderCreation(calls[c := call]) == if Counted(call) then UnderCreation(calls) + {c} else UnderCreation(calls) - {c}
  {
    var after := calls[c := call];
    forall d | d != c ensures d in UnderCreation(after) <==> d in UnderCreation(calls) {
    }
  }

  lemma {:induction false} CreationRemove(calls: map<nat, Call>, c: nat)
    ensures UnderCreation(calls - {c}) == UnderCreation(calls) - {c}
  {
  }

  // ------------------------------------------------------------------ steps

  /** Moving objects between the two lists. */
  lemma {:induction false} ListsKeep(s: Pool, s': Pool)
    requires Inv(s) && s' == s.(idle := s'.idle, lent := s'.lent, ended := s'.ended)
    requires NoDup(s'.idle + s'.lent) && |s'.idle| + |s'.lent| == |s.idle| + |s.lent|
    requires forall o :: o in s'.idle + s'.lent ==> o in s.idle + s.lent
    ensures Inv(s')
  {
    forall c: nat, o: nat | Pending(s', c, o) ensures Pending(s, c, o) {
    }
  }

  /** Taking an idle object moves it from one list to the other. */
  lemma {:induction false} TakeIdleKeeps(s: Pool, who: Option<nat>)
    requires Inv(s)
    ensures Inv(TakeIdle(s, who))
  {
    if s.idle == [] {
      ListsKeep(s, TakeIdle(s, who));
    } else {
      var s', o := TakeIdle(s, who), s.idle[0];
      assert s.idle == [o] + s.idle[1..];
      NoDupSplit(s.idle, s.lent);
      NoDupSplit([o], s.idle[1..]);
      NoDupJoin(s.lent, [o]);
      NoDupJoin(s'.idle, s'.lent);
      ListsKeep(s, s');
    }
  }

  /** Ending or changing a call that holds no created object. */
  lemma {:induction false} CallsKeep(s: Pool, s': Pool, c: nat)
    requires Inv(s) && s' == s.(calls := s'.calls, count := s'.count, ended := s'.ended)
    requires forall d :: d in s'.calls && d != c ==> d in s.calls && s'.calls[d] == s.calls[d]
    requires c in s'.calls ==> !(s'.calls[c].Created? && s'.calls[c].p.Some?)
    requires s'.count == |s'.idle| + |s'.lent| + |UnderCreation(s'.calls)|
    requires s'.count <= s'.max || s'.count <= s'.start
    ensures Inv(s')
  {
    forall d: nat, o: nat | Pending(s', d, o) ensures Pending(s, d, o) {
    }
  }

  lemma {:induction false} FinishKeeps(s: Pool, c: nat)
    requires Inv(s) && Enabled(s, Finish(c))
    ensures Inv(Apply(s, Finish(c)))
  {
    var s' := Apply(s, Finish(c));
    CreationRemove(s.calls, c);
    assert c in UnderCreation(s.calls);
    if s.calls[c].p.None? {
      CallsKeep(s, s', c);
    } else {
      var o := s.calls[c].p.value;
      assert Pending(s, c, o);
      assert s'.idle + s'.lent == (s.idle + s.lent) + [o];
      NoDupAppend(s.idle + s.lent, o);
      forall d: nat, x: nat | Pending(s', d, x) ensures Pending(s, d, x) && x != o {
        assert d != c && Pending(s, d, x);
      }
    }
  }

  lemma {:induction false} CreateKeeps(s: Pool, c: nat, p: Option<nat>)
    requires Inv(s) && Enabled(s, Create(c, p))
    ensures Inv(Apply(s, Create(c, p)))
  {
    var s' := Apply(s, Create(c, p));
    CreationUpdate(s.calls, c, Created(p));
    assert UnderCreation(s'.calls) == UnderCreation(s.calls);
    forall d: nat, o: nat | Pending(s', d, o) ensures if d == c then p == Some(o) else Pending(s, d, o) {
    }
  }

  lemma {:induction false} ReturnKeeps(s: Pool, o: nat)
    requires Inv(s) && o in s.lent
    ensures Inv(Apply(s, Return(o)))
  {
    var s' := Apply(s, Return(o));
    NoDupSplit(s.idle, s.lent);
    RemoveFirstFacts(s.lent, o);
    NoDupJoin(s.idle, [o]);
    NoDupJoin(s'.idle, s'.lent);
    ListsKeep(s, s');
  }

  lemma {:induction false} AddKeeps(s: Pool, o: nat)
    requires Inv(s) && o !in s.known
    ensures Inv(Apply(s, Add(o)))
  {
    var s' := Apply(s, Add(o));
    if s.count < s.max {
      NoDupSplit(s.idle, s.lent);
      NoDupJoin(s.idle, [o]);
      NoDupJoin(s'.idle, s'.lent);
      forall c: nat, x: nat | Pending(s', c, x) ensures Pending(s, c, x) && x != o {
        assert Pending(s, c, x);
      }
    }
  }

  lemma {:induction false} RemoveKeeps(s: Pool, o: nat)
    requires Inv(s)
    ensures Inv(Apply(s, Remove(o)))
  {
    var s' := Apply(s, Remove(o));
    if o in s.idle {
      NoDupSplit(s.idle, s.lent);
      RemoveFirstFacts(s.idle, o);
      NoDupJoin(s'.idle, s'.lent);
      forall c: nat, x: nat | Pending(s', c, x) ensures Pending(s, c, x) {
      }
    }
  }

  /** Every step of every thread keeps the pool in order. */
  lemma {:induction false} StepKeepsInv(s: Pool, step: Step)
    requires Inv(s) && Enabled(s, step)
    ensures Inv(Apply(s, step))
  {
    hide Pending, UnderCreation, NoDup;
    match step
    case TryBorrow => TakeIdleKeeps(s, None);
    case Begin(c) =>
      CallKeeps(s, c, Looking);
    case Look(c) =>
      LookKeeps(s, c);
    case Decide(c) =>
      DecideKeeps(s, c);
    case Create(c, p) => CreateKeeps(s, c, p);
    case Finish(c) => FinishKeeps(s, c);
    case TimeOut(c) =>
      EndKeeps(s, c, End(s, c, None).ended);
    case Wake(c) =>
      TakeIdleKeeps(s, Some(c));
      EndKeeps(TakeIdle(s, Some(c)), c, TakeIdle(s, Some(c)).ended);
    case Return(o) => ReturnKeeps(s, o);
    case Add(o) => AddKeeps(s, o);
    case Remove(o) => RemoveKeeps(s, o);
  }

  lemma {:induction false} EndKeeps(s: Pool, c: nat, ended: seq<Ended>)
    requires Inv(s) && c in s.calls && (s.calls[c].Waiting? || s.calls[c].Looking? || s.calls[c].Missed?)
    ensures Inv(s.(calls := s.calls - {c}, ended := ended))
  {
    CreationRemove(s.calls, c);
    assert UnderCreation(s.calls - {c}) == UnderCreation(s.calls);
    CallsKeep(s, s.(calls := s.calls - {c}, ended := ended), c);
  }

  /** A call moves on without touching the lists or the count. */
  lemma {:induction false} CallKeeps(s: Pool, c: nat, call: Call)
    requires Inv(s) && !Counted(call) && (c in s.calls ==> !Counted(s.calls[c]))
    ensures Inv(s.(calls := s.calls[c := call]))
  {
    CreationUpdate(s.calls, c, call);
    assert UnderCreation(s.calls[c := call]) == UnderCreation(s.calls);
    CallsKeep(s, s.(calls := s.calls[c := call]), c);
  }

  lemma {:induction false} LookKeeps(s: Pool, c: nat)
    requires Inv(s) && Enabled(s, Look(c))
    ensures Inv(Apply(s, Look(c)))
  {
    if s.idle != [] {
      TakeIdleKeeps(s, Some(c));
      EndKeeps(TakeIdle(s, Some(c)), c, TakeIdle(s, Some(c)).ended);
    } else {
      CallKeeps(s, c, Missed);
    }
  }

  lemma {:induction false} DecideKeeps(s: Pool, c: nat)
    requires Inv(s) && Enabled(s, Decide(c))
    ensures Inv(Apply(s, Decide(c)))
  {
    if s.count < s.max {
      CreationUpdate(s.calls, c, Creating);
      assert UnderCreation(s.calls[c := Creating]) == UnderCreation(s.calls) + {c};
      CallsKeep(s, Apply(s, Decide(c)), c);
    } else if s.waits {
      CallKeeps(s, c, Waiting);
    } else {
      EndKeeps(s, c, End(s, c, None).ended);
    }
  }

  // ------------------------------------------------------------------ runs

  ghost predicate IsRun(trace: seq<Pool>, steps: seq<Step>) {
    && |trace| == |steps| + 1
    && (exists idle: seq<nat>, max, waits :: NoDup(idle) && trace[0] == Init(idle, max, waits))
    && (forall i :: 0 <= i < |steps| ==> Enabled(trace[i], steps[i]) && trace[i + 1] == Apply(trace[i], steps[i]))
  }

  lemma {:induction false} RunInv(trace: seq<Pool>, steps: seq<Step>, i: nat)
    requires IsRun(trace, steps) && i < |trace|
    ensures Inv(trace[i])
    ensures trace[i].max == trace[0].max && trace[i].start == trace[0].start == |trace[0].idle|
    ensures trace[i].waits == trace[0].waits
  {
    if i == 0 {
      var idle: seq<nat>, max, waits :| NoDup(idle) && trace[0] == Init(idle, max, waits);
      assert idle + [] == idle;
      assert UnderCreation(trace[0].calls) == {};
    } else {
      RunInv(trace, steps, i - 1);
      StepKeepsInv(trace[i - 1], steps[i - 1]);
    }
  }

  /**
   In every state of every run the object count is what is idle, lent or being created, and
   no object is idle or lent twice. The count stays within the maximum throughout the run
   exactly if the constructor did not create more than the maximum.
   */
  lemma {:induction false} PoolGuarantees(trace: seq<Pool>, steps: seq<Step>)
    requires IsRun(trace, steps)
    ensures forall i :: 0 <= i < |trace| ==>
              && trace[i].count == |trace[i].idle| + |trace[i].lent| + |UnderCreation(trace[i].calls)|
              && NoDup(trace[i].idle + trace[i].lent)
    ensures (forall i :: 0 <= i < |trace| ==> trace[i].count <= trace[i].max) <==> |trace[0].idle| <= trace[0].max
  {
    forall i | 0 <= i < |trace|
      ensures Inv(trace[i]) && trace[i].max == trace[0].max && trace[i].start == |trace[0].idle|
    {
      RunInv(trace, steps, i);
    }
  }

  // ------------------------------------------------------------------ what a borrow returns

  function CallOf(step: Step): Option<nat> {
    match step
    case Begin(c) => Some(c)
    case Look(c) => Some(c)
    case Decide(c) => Some(c)
    case Create(c, _) => Some(c)
    case Finish(c) => Some(c)
    case TimeOut(c) => Some(c)
    case Wake(c) => Some(c)
    case _ => None
  }

  lemma {:induction false} OtherCallsStay(s: Pool, step: Step, c: nat)
    requires Enabled(s, step) && CallOf(step) != Some(c)
    ensures c in Apply(s, step).calls <==> c in s.calls
    ensures c in s.calls ==> Apply(s, step).calls[c] == s.calls[c]
  {
  }

  /** The call that is open at `i` began with step `z` and has been open ever since. */
  ghost predicate OpenSince(trace: seq<Pool>, steps: seq<Step>, z: nat, i: nat, c: nat) {
    && z < i < |trace| == |steps| + 1 && steps[z] == Begin(c)
    && forall x :: z < x <= i ==> c in trace[x].calls
  }

  /** At step `a` the call looked and found nothing. */
  predicate MissedAt(trace: seq<Pool>, steps: seq<Step>, a: nat, c: nat) {
    a < |steps| < |trace| && steps[a] == Look(c) && trace[a].idle == []
  }

  /** At step `b` the call found room for another object, or found none. */
  predicate DecidedAt(trace: seq<Pool>, steps: seq<Step>, b: nat, c: nat, room: bool) {
    b < |steps| < |trace| && steps[b] == Decide(c) && (room <==> trace[b].count < trace[0].max)
  }

  /** How an open call came to where it is. */
  lemma {:induction false} CallAdvances(s: Pool, step: Step, c: nat)
    requires Enabled(s, step) && c in Apply(s, step).calls
    ensures c !in s.calls ==> step == Begin(c) && Apply(s, step).calls[c] == Looking
    ensures c in s.calls && Apply(s, step).calls[c] != s.calls[c] ==>
              match Apply(s, step).calls[c]
              case Looking => false
              case Missed => step == Look(c) && s.calls[c].Looking? && s.idle == []
              case Creating => step == Decide(c) && s.calls[c].Missed? && s.count < s.max
              case Created(p) => step == Create(c, p) && s.calls[c].Creating?
              case Waiting => step == Decide(c) && s.calls[c].Missed? && s.count >= s.max && s.waits
  {
    if CallOf(step) != Some(c) {
      OtherCallsStay(s, step, c);
    }
  }

  /** The past of an open call: when it began, looked, decided and created. */
  lemma {:induction false} CallStory(trace: seq<Pool>, steps: seq<Step>, i: nat, c: nat)
    returns (z: nat, a: nat, b: nat, l: nat)
    requires IsRun(trace, steps) && i < |trace| && c in trace[i].calls
    ensures OpenSince(trace, steps, z, i, c)
    ensures !trace[i].calls[c].Looking? ==> z < a < i && MissedAt(trace, steps, a, c)
    ensures Counted(trace[i].calls[c]) ==> a < b < i && DecidedAt(trace, steps, b, c, true)
    ensures trace[i].calls[c].Created? ==> b < l < i && steps[l] == Create(c, trace[i].calls[c].p)
    ensures trace[i].calls[c].Waiting? ==> a < b < i && DecidedAt(trace, steps, b, c, false) && trace[0].waits
  {
    hide Apply, Enabled, Inv;
    z, a, b, l := 0, 0, 0, 0;
    if i > 0 {
      var s, step := trace[i - 1], steps[i - 1];
      RunInv(trace, steps, i - 1);
      CallAdvances(s, step, c);
      if c in s.calls {
        z, a, b, l := CallStory(trace, steps, i - 1, c);
        if trace[i].calls[c] != s.calls[c] {
          match step
          case Look(_) => a := i - 1;
          case Decide(_) => b := i - 1;
          case _ => l := i - 1;
        }
      } else {
        z := i - 1;
      }
    }
  }

  /**
   TryBorrow in every run: it returns nothing exactly if no object is idle, and otherwise the first
   idle one, which is then lent.
   */
  lemma {:induction false} TryBorrowResult(trace: seq<Pool>, steps: seq<Step>, k: nat) returns (got: Option<nat>)
    requires IsRun(trace, steps) && k < |steps| && steps[k] == TryBorrow
    ensures trace[k + 1].ended == trace[k].ended + [Ended(None, got)]
    ensures got.None? <==> trace[k].idle == []
    ensures got.None? ==> trace[k + 1].lent == trace[k].lent
    ensures got.Some? ==> trace[k].idle == [got.value] + trace[k + 1].idle && trace[k + 1].lent == trace[k].lent + [got.value]
  {
    got := if trace[k].idle == [] then None else Some(trace[k].idle[0]);
  }

  /**
   Borrow in every run. When a call ends, its result is recorded. An object it returns is then lent, and is the first
   idle one or the one that this call created. It returns nothing only after it looked and no
   object was idle, and then either there was room and the creation failed, or there was none and the pool does not
   wait, or the wait timed out, or no object was idle after the wait.
   */
  lemma {:induction false} BorrowResult(trace: seq<Pool>, steps: seq<Step>, k: nat, c: nat)
    returns (got: Option<nat>, z: nat, a: nat, b: nat, l: nat)
    requires IsRun(trace, steps) && k < |steps| && c in trace[k].calls && c !in trace[k + 1].calls
    ensures trace[k + 1].ended == trace[k].ended + [Ended(Some(c), got)]
    ensures OpenSince(trace, steps, z, k, c)
    ensures got.Some? ==>
              && trace[k + 1].lent == trace[k].lent + [got.value]
              && (trace[k].idle == [got.value] + trace[k + 1].idle || (z < l < k && steps[l] == Create(c, got)))
    ensures got.None? ==>
              && trace[k + 1].idle == trace[k].idle && trace[k + 1].lent == trace[k].lent
              && z < a < b <= k && MissedAt(trace, steps, a, c)
              && ( || (DecidedAt(trace, steps, b, c, true) && b < l < k && steps[l] == Create(c, None))
                   || (DecidedAt(trace, steps, b, c, false) && !trace[0].waits)
                   || (DecidedAt(trace, steps, b, c, false) && steps[k] == TimeOut(c))
                   || (DecidedAt(trace, steps, b, c, false) && steps[k] == Wake(c) && trace[k].idle == []))
  {
    hide MissedAt, OpenSince, Inv;
    var s, step := trace[k], steps[k];
    z, a, b, l := CallStory(trace, steps, k, c);
    RunInv(trace, steps, k);
    if CallOf(step) != Some(c) {
      OtherCallsStay(s, step, c);
      assert false;
    }
    if step.Decide? {
      b := k;
    }
    got := trace[k + 1].ended[|s.ended|].got;
  }

  // ------------------------------------------------------------------ first in, first out

  /** `o` stands before `p`. */
  ghost predicate Before(xs: seq<nat>, o: nat, p: nat) {
    exists a, b :: 0 <= a < b < |xs| && xs[a] == o && xs[b] == p
  }

  lemma {:induction false} RemoveFirstAt(xs: seq<nat>, x: nat) returns (i: nat)
    requires x in xs
    ensures i < |xs| && xs[i] == x && RemoveFirst(xs, x) == xs[..i] + xs[i + 1..]
  {
    if xs[0] == x {
      i := 0;
    } else {
      i := RemoveFirstAt(xs[1..], x);
      i := i + 1;
      assert xs[..i] + xs[i + 1..] == [xs[0]] + (xs[1..][..i - 1] + xs[1..][i..]);
    }
  }

  lemma {:induction false} CutKeepsOrder(xs: seq<nat>, i: nat, o: nat, p: nat)
    requires NoDup(xs) && i < |xs| && Before(xs, o, p)
    requires o in xs[..i] + xs[i + 1..] && p in xs[..i] + xs[i + 1..]
    ensures Before(xs[..i] + xs[i + 1..], o, p)
  {
    var ys := xs[..i] + xs[i + 1..];
    var a, b :| 0 <= a < b < |xs| && xs[a] == o && xs[b] == p;
    assert a != i && b != i;
    var a', b' := if a < i then a else a - 1, if b < i then b else b - 1;
    assert ys[a'] == o && ys[b'] == p;
  }

  lemma {:induction false} TailKeepsOrder(xs: seq<nat>, o: nat, p: nat)
    requires xs != [] && NoDup(xs) && Before(xs, o, p) && o in xs[1..]
    ensures Before(xs[1..], o, p)
  {
    var a, b :| 0 <= a < b < |xs| && xs[a] == o && xs[b] == p;
    var i :| 0 <= i < |xs[1..]| && xs[1..][i] == o;
    assert xs[i + 1] == o && a == i + 1;
    assert xs[1..][a - 1] == o && xs[1..][b - 1] == p;
  }

  lemma {:induction false} AppendKeepsOrder(xs: seq<nat>, x: nat, o: nat, p: nat)
    requires Before(xs, o, p)
    ensures Before(xs + [x], o, p)
  {
    var a, b :| 0 <= a < b < |xs| && xs[a] == o && xs[b] == p;
    assert (xs + [x])[a] == o && (xs + [x])[b] == p;
  }

  /** What a step can do to the idle list: nothing, take the first, append one, or take one out. */
  lemma {:induction false} IdleAfter(s: Pool, step: Step)
    requires Enabled(s, step)
    ensures var xs, ys := s.idle, Apply(s, step).idle;
            || ys == xs
            || (xs != [] && ys == xs[1..])
            || ((step.Return? || step.Add?) && ys == xs + [step.o])
            || (step.Remove? && step.o in xs && ys == RemoveFirst(xs, step.o))
  {
  }

  /** No step changes the order of objects that stay idle. */
  lemma {:induction false} OrderKept(s: Pool, step: Step, o: nat, p: nat)
    requires NoDup(s.idle) && Enabled(s, step) && Before(s.idle, o, p)
    requires o in Apply(s, step).idle && p in Apply(s, step).idle
    ensures Before(Apply(s, step).idle, o, p)
  {
    hide Apply, Enabled, NoDup, RemoveFirst, Before;
    var xs, ys := s.idle, Apply(s, step).idle;
    IdleAfter(s, step);
    if ys != xs {
      if xs != [] && ys == xs[1..] {
        TailKeepsOrder(xs, o, p);
      } else if step.Remove? {
        var i := RemoveFirstAt(xs, step.o);
        CutKeepsOrder(xs, i, o, p);
      } else {
        AppendKeepsOrder(xs, step.o, o, p);
      }
    }
  }

  lemma {:induction false} IdleNoDup(s: Pool)
    requires Inv(s)
    ensures NoDup(s.idle) && NoDup(s.lent) && forall o :: o in s.idle ==> o !in s.lent
  {
    NoDupSplit(s.idle, s.lent);
  }

  /** Objects that stay idle stay in order. */
  lemma {:induction false} IdleOrder(trace: seq<Pool>, steps: seq<Step>, i: nat, k: nat, o: nat, p: nat)
    requires IsRun(trace, steps) && i <= k < |trace| && Before(trace[i].idle, o, p)
    requires forall x :: i <= x <= k ==> o in trace[x].idle && p in trace[x].idle
    ensures Before(trace[k].idle, o, p)
    decreases k
  {
    hide Apply, Enabled, Inv, Before;
    if i < k {
      IdleOrder(trace, steps, i, k - 1, o, p);
      RunInv(trace, steps, k - 1);
      IdleNoDup(trace[k - 1]);
      assert trace[k] == Apply(trace[k - 1], steps[k - 1]) && o in trace[k].idle && p in trace[k].idle;
      OrderKept(trace[k - 1], steps[k - 1], o, p);
    }
  }

  lemma {:induction false} NotFirstNotLent(s: Pool, step: Step, o: nat, p: nat)
    requires Inv(s) && Enabled(s, step) && Before(s.idle, o, p)
    ensures p !in Apply(s, step).lent
  {
    NoDupSplit(s.idle, s.lent);
    var a, b :| 0 <= a < b < |s.idle| && s.idle[a] == o && s.idle[b] == p;
    assert s.idle[0] != p;
    if step.Return? {
      RemoveFirstFacts(s.lent, step.o);
    } else if step.Finish? && s.calls[step.c].p.Some? {
      assert Pending(s, step.c, s.calls[step.c].p.value);
    }
  }

  /**
   First in, first out: in every run, an object is not lent while another one is idle that became idle before it.
   Step `j` makes `p` idle when `o` already is; as long as both are idle, no step lends `p`.
   */
  lemma {:induction false} FirstInFirstOut(trace: seq<Pool>, steps: seq<Step>, j: nat, k: nat, o: nat, p: nat)
    requires IsRun(trace, steps) && j < k < |steps|
    requires o in trace[j].idle && p !in trace[j].idle
    requires forall x :: j < x <= k ==> o in trace[x].idle && p in trace[x].idle
    ensures p !in trace[k + 1].lent
  {
    assert trace[j + 1] == Apply(trace[j], steps[j]) && p in trace[j + 1].idle;
    ArrivesLast(trace[j], steps[j], o, p);
    IdleOrder(trace, steps, j + 1, k, o, p);
    RunInv(trace, steps, k);
    NotFirstNotLent(trace[k], steps[k], o, p);
  }

  lemma {:induction false} ArrivesLast(s: Pool, step: Step, o: nat, p: nat)
    requires Enabled(s, step) && o in s.idle && p !in s.idle && p in Apply(s, step).idle
    ensures Before(Apply(s, step).idle, o, p)
  {
    var ys := Apply(s, step).idle;
    IdleAfter(s, step);
    if step.Remove? && step.o in s.idle {
      var i := RemoveFirstAt(s.idle, step.o);
    }
    assert ys == s.idle + [p];
    var a :| 0 <= a < |s.idle| && s.idle[a] == o;
    assert ys[a] == o && ys[|s.idle|] == p;
  }

  // ------------------------------------------------------------------ what can be done with the pool

  /** The pool after `n` calls of TryBorrow. */
  function Tries(s: Pool, n: nat): Pool {
    if n == 0 then s else Apply(Tries(s, n - 1), TryBorrow)
  }

  /** TryBorrow, over and over, hands out the idle objects in order until none is left, and then nothing. */
  lemma {:induction false} TriesInOrder(s: Pool, n: nat)
    ensures n <= |s.idle| ==>
              && Tries(s, n).idle == s.idle[n..] && Tries(s, n).lent == s.lent + s.idle[..n]
              && Tries(s, n).ended == s.ended + seq(n, i requires 0 <= i < |s.idle| => Ended(None, Some(s.idle[i])))
    ensures n > |s.idle| ==> Tries(s, n).idle == [] && Tries(s, n).lent == s.lent + s.idle
  {
    if n > 0 {
      TriesInOrder(s, n - 1);
    }
  }

  /**
   What is returned can be borrowed again: after Return(o), as many calls of TryBorrow as there are idle objects hand
   out those that were idle before, and `o` last.
   */
  lemma {:induction false} ReturnedComesAgain(s: Pool, o: nat)
    requires Inv(s) && o in s.lent
    ensures var s' := Apply(s, Return(o));
            && o !in s'.lent && s'.count == s.count
            && Tries(s', |s.idle| + 1).ended ==
                 s.ended + seq(|s.idle|, i requires 0 <= i < |s.idle| => Ended(None, Some(s.idle[i]))) + [Ended(None, Some(o))]
  {
    var s' := Apply(s, Return(o));
    IdleNoDup(s);
    RemoveFirstFacts(s.lent, o);
    TriesInOrder(s', |s.idle| + 1);
    assert forall i :: 0 <= i < |s.idle| ==> s'.idle[i] == s.idle[i];
  }

  /** Add takes an object exactly if the pool is below its maximum; it comes after all that are idle. */
  lemma {:induction false} AddedIff(s: Pool, o: nat)
    requires Inv(s) && o !in s.known
    ensures var s' := Apply(s, Add(o));
            && (o in s'.idle <==> s.count < s.max)
            && (o in s'.idle ==> s'.count == s.count + 1 && s'.idle == s.idle + [o] && s'.lent == s.lent)
            && (o !in s'.idle ==> s' == s)
  {
  }

  /** Remove takes out exactly the object, if it is idle, and gives its place free; lent objects stay lent. */
  lemma {:induction false} RemovedIff(s: Pool, o: nat)
    requires Inv(s)
    ensures var s' := Apply(s, Remove(o));
            && s'.idle == Without(s.idle, o) && s'.lent == s.lent
            && s'.count == s.count - if o in s.idle then 1 else 0
  {
    IdleNoDup(s);
    if o in s.idle {
      var i := RemoveFirstAt(s.idle, o);
      WithoutIsRemoveAt(s.idle, i);
    } else {
      WithoutAbsent(s.idle, o);
    }
  }

  /** One enabled step. */
  ghost predicate Steps(s: Pool, step: Step, s': Pool) {
    Enabled(s, step) && s' == Apply(s, step)
  }

  /** These steps are possible one after the other and lead from `s` to `s'`. */
  ghost predicate Leads(s: Pool, steps: seq<Step>, s': Pool)
    decreases |steps|
  {
    if steps == [] then s' == s else Enabled(s, steps[0]) && Leads(Apply(s, steps[0]), steps[1..], s')
  }

  lemma {:induction false} LeadsFirst(s: Pool, step: Step, rest: seq<Step>, t: Pool, s': Pool)
    requires Steps(s, step, t) && Leads(t, rest, s')
    ensures Leads(s, [step] + rest, s')
  {
    assert ([step] + rest)[1..] == rest;
  }

  lemma {:induction false} LeadsAll(ss: seq<Pool>, a: seq<Step>)
    requires |ss| == |a| + 1 && forall i :: 0 <= i < |a| ==> Steps(ss[i], a[i], ss[i + 1])
    ensures Leads(ss[0], a, ss[|a|])
  {
    hide Steps;
    assert a[|a|..] == [] && Leads(ss[|a|], a[|a|..], ss[|a|]);
    for i := |a| downto 0
      invariant Leads(ss[i], a[i..], ss[|a|])
    {
      LeadsFirst(ss[i], a[i], a[i + 1..], ss[i + 1], ss[|a|]);
      assert a[i..] == [a[i]] + a[i + 1..];
    }
    assert a[0..] == a;
  }

  /**
   A pool without idle objects and with room creates one for the borrower; if the creation fails, nothing but the
   record of the failed call remains.
   */
  lemma {:induction false} BorrowCreates(s: Pool, c: nat, p: Option<nat>) returns (s': Pool)
    requires c !in s.calls && s.idle == [] && s.count < s.max && (p.Some? ==> p.value !in s.known)
    ensures Leads(s, [Begin(c), Look(c), Decide(c), Create(c, p), Finish(c)], s')
    ensures s' == if p.None? then s.(ended := s.ended + [Ended(Some(c), None)])
                  else s.(count := s.count + 1, lent := s.lent + [p.value], known := s.known + {p.value},
                          ended := s.ended + [Ended(Some(c), p)])
  {
    var s1 := Apply(s, Begin(c));
    var s2 := Apply(s1, Look(c));
    var s3 := Apply(s2, Decide(c));
    var s4 := Apply(s3, Create(c, p));
    s' := Apply(s4, Finish(c));
    LeadsAll([s, s1, s2, s3, s4, s'], [Begin(c), Look(c), Decide(c), Create(c, p), Finish(c)]);
    assert s'.calls == s.calls;
  }

  /** An exhausted pool that waits passes the next returned object on to the borrower that waits. */
  lemma {:induction false} WaiterIsServed(s: Pool, c: nat, o: nat) returns (s': Pool)
    requires Inv(s) && c !in s.calls && s.idle == [] && s.count >= s.max && s.waits && o in s.lent
    ensures Leads(s, [Begin(c), Look(c), Decide(c), Return(o), Wake(c)], s')
    ensures s' == s.(lent := s'.lent, ended := s.ended + [Ended(Some(c), Some(o))])
    ensures forall x :: x in s'.lent <==> x in s.lent
  {
    var s1 := Apply(s, Begin(c));
    var s2 := Apply(s1, Look(c));
    var s3 := Apply(s2, Decide(c));
    var s4 := Apply(s3, Return(o));
    s' := Apply(s4, Wake(c));
    LeadsAll([s, s1, s2, s3, s4, s'], [Begin(c), Look(c), Decide(c), Return(o), Wake(c)]);
    assert s'.calls == s.calls;
    IdleNoDup(s);
    RemoveFirstFacts(s.lent, o);
  }
}
