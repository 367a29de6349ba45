/**
 The request/response protocol of a node as interleaved steps.

 Any number of callers run hnode_request and one IO thread runs hnode_on_respond over a shared
 array of slots. Each slot has a mutex, a status, and the sequence number and reply buffer of
 its request. A step is what one thread does without another being able to look; a run is
 any interleaving of steps. A request is named by its ticket, the number of tickets
 taken before it; the program sees the ticket only modulo 2^32.
 */
module RequestSlots {
  import opened Deadline

  datatype Option<T> = None | Some(value: T)

  type Bytes = seq<bv8>

  /** A response; `answers` is the request whose message it answers, when there is one. */
  datatype Msg = Msg(sn: nat, payload: Bytes, answers: Option<nat>)

  datatype Status = Idle | Busy | Done

  datatype Holder = Nobody | Caller(ticket: nat) | IoThread

  /** `owner` is history: the request between its compare-and-swap and its store of IDLE. */
  datatype Slot = Slot(holder: Holder, status: Status, sn: nat, rep: nat, owner: Option<nat>)

  /** What pthread_cond_timedwait returns: 0, ETIMEDOUT or EINVAL. */
  datatype Wait = Woken | TimedOut | Invalid

  datatype Code = Ok | ETimeout | EBusy

  /** How far a request has come. */
  datatype Pc =
    | Ticketed               // has a ticket
    | Locked                 // trylock succeeded
    | Refused                // the compare-and-swap failed
    | Owner                  // the compare-and-swap succeeded
    | Cleared                // reply buffer emptied
    | SeqStored              // sequence number stored in the slot
    | Filled                 // reply buffer stored in the slot
    | Testing                // request sent, at the loop test
    | Waiting                // in the timed wait, mutex released
    | Waking(ret: Wait)      // the wait is over, mutex not yet back
    | Woke(ret: Wait)        // the wait returned
    | Leaving(ret: Wait)     // past the loop
    | Released(ret: Wait)    // IDLE stored
    | Returned(code: Code)

  /** `got` is history: the messages appended to the reply buffer on behalf of this request. */
  datatype Request = Request(sn: nat, rep: nat, timeout: nat, sentAt: Time, pc: Pc, got: seq<Msg>)

  datatype Io =
    | Resting
    | Wants(msg: Msg)        // about to lock the slot
    | Holds(msg: Msg)        // slot locked
    | Matched(msg: Msg)      // status and sequence number matched
    | Pushed(msg: Msg)       // payload appended
    | Finished(msg: Msg)     // about to unlock

  datatype State = State(
    counter: nat,
    slots: seq<Slot>,
    requests: seq<Request>,
    buffers: map<nat, Bytes>,
    io: Io,
    sent: set<nat>)

  datatype Step =
    | TakeTicket(rep: nat, timeout: nat)
    | TryLock(t: nat)
    | Swap(t: nat)
    | GiveUp(t: nat)
    | Clear(t: nat)
    | StoreSeq(t: nat)
    | StoreRep(t: nat)
    | Send(t: nat, now: Time)
    | Test(t: nat)
    | EndWait(t: nat, ret: Wait, now: Time)
    | Reacquire(t: nat)
    | CheckWait(t: nat)
    | StoreIdle(t: nat)
    | Unlock(t: nat)
    | Receive(msg: Msg)
    | IoLock
    | IoMatch
    | IoPush
    | IoDone
    | IoUnlock

  function Init(n: nat, buffers: map<nat, Bytes>): State {
    State(0, seq(n, _ => Slot(Nobody, Idle, 0, 0, None)), [], buffers, Resting, {})
  }

  function At(s: State, sn: nat): (i: nat)
    requires |s.slots| > 0
    ensures i < |s.slots|
  {
    sn % |s.slots|
  }

  function SlotOf(s: State, t: nat): (i: nat)
    requires |s.slots| > 0 && t < |s.requests|
    ensures i < |s.slots|
  {
    At(s, s.requests[t].sn)
  }

  function Buffer(s: State, b: nat): Bytes {
    if b in s.buffers then s.buffers[b] else []
  }

  function DeadlineOf(q: Request): Time {
    OffsetBy(q.sentAt, ClampTimeout(q.timeout))
  }

  predicate HasLock(pc: Pc) {
    !(pc.Ticketed? || pc.Waiting? || pc.Waking? || pc.Returned?)
  }

  predicate Owns(pc: Pc) {
    !(pc.Ticketed? || pc.Locked? || pc.Refused? || pc.Released? || pc.Returned?)
  }

  /** The thread is named by the step, or the step is one of the IO thread (None). */
  function Thread(step: Step): Option<nat> {
    match step
    case TryLock(t) => Some(t)
    case Swap(t) => Some(t)
    case GiveUp(t) => Some(t)
    case Clear(t) => Some(t)
    case StoreSeq(t) => Some(t)
    case StoreRep(t) => Some(t)
    case Send(t, _) => Some(t)
    case Test(t) => Some(t)
    case EndWait(t, _, _) => Some(t)
    case Reacquire(t) => Some(t)
    case CheckWait(t) => Some(t)
    case StoreIdle(t) => Some(t)
    case Unlock(t) => Some(t)
    case _ => None
  }

  /** A wait times out only when the clock has reached the deadline. */
  predicate CallerEnabled(step: Step, q: Request, slot: Slot) {
    match step
    case TryLock(_) => q.pc.Ticketed?
    case Swap(_) => q.pc.Locked?
    case GiveUp(_) => q.pc.Refused?
    case Clear(_) => q.pc.Owner?
    case StoreSeq(_) => q.pc.Cleared?
    case StoreRep(_) => q.pc.SeqStored?
    case Send(_, now) => q.pc.Filled? && Normalised(now)
    case Test(_) => q.pc.Testing?
    case EndWait(_, ret, now) =>
      q.pc.Waiting? && !ret.Invalid? && (ret.TimedOut? ==> Nanos(now) >= Nanos(DeadlineOf(q)))
    case Reacquire(_) => q.pc.Waking? && slot.holder.Nobody?
    case CheckWait(_) => q.pc.Woke?
    case StoreIdle(_) => q.pc.Leaving?
    case Unlock(_) => q.pc.Released?
    case _ => false
  }

  /**
   When a step may happen. The only demand on the outside is that a response that answers
   some request carries that request's sequence number and that the request was sent.
   */
  predicate Enabled(s: State, step: Step)
    requires |s.slots| > 0
  {
    match step
    case TakeTicket(_, _) => true
    case Receive(m) => s.io.Resting? && m.sn < TICKET_WRAP && Genuine(s, m)
    case IoLock => s.io.Wants? && s.slots[At(s, s.io.msg.sn)].holder.Nobody?
    case IoMatch => s.io.Holds?
    case IoPush => s.io.Matched?
    case IoDone => s.io.Pushed?
    case IoUnlock => s.io.Finished?
    case _ =>
      var t := Thread(step).value;
      t < |s.requests| && CallerEnabled(step, s.requests[t], s.slots[SlotOf(s, t)])
  }

  predicate Genuine(s: State, m: Msg) {
    m.answers.Some? ==>
      && m.answers.value in s.sent
      && m.answers.value < |s.requests|
      && m.sn == s.requests[m.answers.value].sn
  }

  // ------------------------------------------------------------------ steps

  /** What a caller's step does to its own request. */
  function RequestAfter(step: Step, q: Request, slot: Slot): Request {
    match step
    case TryLock(_) => q.(pc := if slot.holder.Nobody? then Locked else Returned(EBusy))
    case Swap(_) => q.(pc := if slot.status.Idle? then Owner else Refused)
    case GiveUp(_) => q.(pc := Returned(EBusy))
    case Clear(_) => q.(pc := Cleared)
    case StoreSeq(_) => q.(pc := SeqStored)
    case StoreRep(_) => q.(pc := Filled)
    case Send(_, now) => q.(pc := Testing, sentAt := now)
    case Test(_) =>
      if slot.status.Busy? then
        if Normalised(DeadlineOf(q)) then q.(pc := Waiting) else q.(pc := Woke(Invalid))
      else q.(pc := Leaving(Woken))
    case EndWait(_, ret, _) => q.(pc := Waking(ret))
    case Reacquire(_) => if q.pc.Waking? then q.(pc := Woke(q.pc.ret)) else q
    case CheckWait(_) =>
      if q.pc.Woke? then (if q.pc.ret.Woken? then q.(pc := Testing) else q.(pc := Leaving(q.pc.ret))) else q
    case StoreIdle(_) => if q.pc.Leaving? then q.(pc := Released(q.pc.ret)) else q
    case Unlock(_) =>
      if q.pc.Released? then q.(pc := Returned(if q.pc.ret.TimedOut? then ETimeout else Ok)) else q
    case _ => q
  }

  /** What a caller's step does to the slot of its ticket. */
  function SlotAfter(step: Step, t: nat, q: Request, slot: Slot): Slot {
    match step
    case TryLock(_) => if slot.holder.Nobody? then slot.(holder := Caller(t)) else slot
    case Swap(_) => if slot.status.Idle? then slot.(status := Busy, owner := Some(t)) else slot
    case GiveUp(_) => slot.(holder := Nobody)
    case StoreSeq(_) => slot.(sn := q.sn)
    case StoreRep(_) => slot.(rep := q.rep)
    case Test(_) => if slot.status.Busy? && Normalised(DeadlineOf(q)) then slot.(holder := Nobody) else slot
    case Reacquire(_) => slot.(holder := Caller(t))
    case StoreIdle(_) => slot.(status := Idle, owner := None)
    case Unlock(_) => slot.(holder := Nobody)
    case _ => slot
  }

  function CallerStep(s: State, step: Step, t: nat): (s': State)
    requires |s.slots| > 0 && t < |s.requests|
    ensures |s'.slots| == |s.slots| && |s'.requests| == |s.requests|
  {
    var i, q := SlotOf(s, t), s.requests[t];
    s.(requests := s.requests[t := RequestAfter(step, q, s.slots[i])],
       slots := s.slots[i := SlotAfter(step, t, q, s.slots[i])],
       buffers := if step.Clear? then s.buffers[q.rep := []] else s.buffers,
       sent := if step.Send? then s.sent + {t} else s.sent)
  }

  function IoStep(s: State, step: Step): (s': State)
    requires |s.slots| > 0 && Enabled(s, step)
    ensures |s'.slots| == |s.slots|
  {
    match step
    case Receive(m) => s.(io := Wants(m))
    case IoLock =>
      var i := At(s, s.io.msg.sn);
      s.(io := Holds(s.io.msg), slots := s.slots[i := s.slots[i].(holder := IoThread)])
    case IoMatch =>
      var slot := s.slots[At(s, s.io.msg.sn)];
      s.(io := if slot.status.Busy? && slot.sn == s.io.msg.sn then Matched(s.io.msg) else Finished(s.io.msg))
    case IoPush =>
      var slot := s.slots[At(s, s.io.msg.sn)];
      var s' := s.(io := Pushed(s.io.msg), buffers := s.buffers[slot.rep := Buffer(s, slot.rep) + s.io.msg.payload]);
      if slot.owner.Some? && slot.owner.value < |s.requests| then
        var t := slot.owner.value;
        s'.(requests := s.requests[t := s.requests[t].(got := s.requests[t].got + [s.io.msg])])
      else s'
    case IoDone =>
      var i := At(s, s.io.msg.sn);
      s.(io := Finished(s.io.msg), slots := s.slots[i := s.slots[i].(status := Done)])
    case IoUnlock =>
      var i := At(s, s.io.msg.sn);
      s.(io := Resting, slots := s.slots[i := s.slots[i].(holder := Nobody)])
    case _ => s
  }

  function Apply(s: State, step: Step): (s': State)
    requires |s.slots| > 0 && Enabled(s, step)
    ensures |s'.slots| == |s.slots|
  {
    if step.TakeTicket? then
      s.(counter := (s.counter + 1) % TICKET_WRAP,
         requests := s.requests + [Request(s.counter, step.rep, step.timeout, Time(0, 0), Ticketed, [])])
    else if Thread(step).Some? then CallerStep(s, step, Thread(step).value)
    else IoStep(s, step)
  }

  /** `trace` is a run: it starts in `Init` and every state comes from the one before by an enabled step. */
  ghost predicate IsRun(n: nat, trace: seq<State>, steps: seq<Step>) {
    && n > 0 && |trace| == |steps| + 1
    && (exists buffers :: trace[0] == Init(n, buffers))
    && (forall i :: 0 <= i < |trace| ==> |trace[i].slots| == n)
    && (forall i :: 0 <= i < |steps| ==> Enabled(trace[i], steps[i]) && trace[i + 1] == Apply(trace[i], steps[i]))
  }

  // ------------------------------------------------------------------ the invariant

  predicate Stored(pc: Pc) {
    Owns(pc) && !(pc.Owner? || pc.Cleared?)
  }

  predicate Ready(pc: Pc) {
    Stored(pc) && !pc.SeqStored?
  }

  predicate Unsent(pc: Pc) {
    pc.Ticketed? || pc.Locked? || pc.Refused? || pc.Owner? || pc.Cleared? || pc.SeqStored? || pc.Filled?
  }

  /** The IO thread has appended its payload but not yet stored DONE. */
  predicate Delivering(s: State, i: nat)
    requires |s.slots| > 0
  {
    s.io.Pushed? && At(s, s.io.msg.sn) == i
  }

  /** What is known of the reply once the wait is over. */
  predicate Outcome(q: Request) {
    var valid := Normalised(DeadlineOf(q));
    match q.pc
    case Waiting => valid
    case Waking(r) => valid && !r.Invalid?
    case Woke(r) => (r.Invalid? <==> !valid) && (r.Invalid? ==> q.got == [])
    case Leaving(r) => (r.Invalid? <==> !valid) && (r.Invalid? ==> q.got == []) && (r.Woken? ==> |q.got| == 1)
    case Released(r) => (r.Invalid? <==> !valid) && (r.Invalid? ==> q.got == []) && (r.Woken? ==> |q.got| == 1)
    case Returned(Ok) => if valid then |q.got| == 1 else q.got == []
    case Returned(ETimeout) => valid
    case Returned(EBusy) => q.got == []
    case _ => true
  }

  ghost predicate RequestOk(s: State, t: nat)
    requires |s.slots| > 0 && t < |s.requests|
  {
    var q, slot := s.requests[t], s.slots[SlotOf(s, t)];
    && q.sn == t % TICKET_WRAP && Normalised(q.sentAt)
    && (HasLock(q.pc) <==> slot.holder == Caller(t))
    && (Owns(q.pc) <==> slot.owner == Some(t))
    && (Stored(q.pc) ==> slot.sn == q.sn)
    && (Ready(q.pc) ==> slot.rep == q.rep)
    && |q.got| <= 1
    && (forall m :: m in q.got ==> m.sn == q.sn && Genuine(s, m))
    && (Unsent(q.pc) ==> q.got == [] && (Owns(q.pc) ==> slot.status.Busy?))
    && (q.pc.Testing? && !Normalised(DeadlineOf(q)) ==> slot.status.Busy?)
    && (Owns(q.pc) && (slot.status.Done? || Delivering(s, SlotOf(s, t))) ==> |q.got| == 1)
    && (Owns(q.pc) && slot.status.Busy? && !Delivering(s, SlotOf(s, t)) ==> q.got == [])
    && Outcome(q)
  }

  predicate IoHasLock(s: State, i: nat)
    requires |s.slots| > 0
  {
    !s.io.Resting? && !s.io.Wants? && At(s, s.io.msg.sn) == i
  }

  ghost predicate SlotOk(s: State, i: nat)
    requires |s.slots| > 0 && i < |s.slots|
  {
    var slot := s.slots[i];
    && (slot.status.Idle? <==> slot.owner.None?)
    && (slot.owner.Some? ==> slot.owner.value < |s.requests| && SlotOf(s, slot.owner.value) == i)
    && (slot.holder.Caller? ==> slot.holder.ticket < |s.requests| && SlotOf(s, slot.holder.ticket) == i)
    && (slot.holder.IoThread? <==> IoHasLock(s, i))
  }

  ghost predicate IoOk(s: State)
    requires |s.slots| > 0
  {
    && (!s.io.Resting? ==> s.io.msg.sn < TICKET_WRAP && Genuine(s, s.io.msg))
    && (s.io.Matched? || s.io.Pushed? ==>
          var slot := s.slots[At(s, s.io.msg.sn)];
          slot.status.Busy? && slot.sn == s.io.msg.sn)
  }

  ghost predicate Inv(s: State) {
    && |s.slots| > 0
    && s.counter == |s.requests| % TICKET_WRAP
    && (forall t :: 0 <= t < |s.requests| ==> RequestOk(s, t))
    && (forall i :: 0 <= i < |s.slots| ==> SlotOk(s, i))
    && IoOk(s)
  }

  lemma {:induction false} InitInv(n: nat, buffers: map<nat, Bytes>)
    requires n > 0
    ensures Inv(Init(n, buffers))
  {
  }

  lemma {:induction false} CounterNext(n: nat)
    ensures (n % TICKET_WRAP + 1) % TICKET_WRAP == (n + 1) % TICKET_WRAP
  {
  }

  lemma {:induction false} TakeTicketKeepsRequest(s: State, step: Step, t: nat)
    requires Inv(s) && step.TakeTicket? && t <= |s.requests|
    ensures RequestOk(Apply(s, step), t)
  {
    hide SlotOk, IoOk;
    if t < |s.requests| {
      hide Outcome, DeadlineOf;
      assert RequestOk(s, t);
    } else {
      NewTicketUnknown(s, SlotOf(Apply(s, step), t));
    }
  }

  lemma {:induction false} NewTicketUnknown(s: State, i: nat)
    requires Inv(s) && i < |s.slots|
    ensures s.slots[i].owner != Some(|s.requests|) && s.slots[i].holder != Caller(|s.requests|)
  {
    assert SlotOk(s, i);
  }

  lemma {:induction false} TakeTicketKeeps(s: State, step: Step)
    requires Inv(s) && step.TakeTicket?
    ensures Inv(Apply(s, step))
  {
    hide RequestOk, Outcome;
    var s' := Apply(s, step);
    CounterNext(|s.requests|);
    forall t | 0 <= t < |s'.requests| ensures RequestOk(s', t) {
      TakeTicketKeepsRequest(s, step, t);
    }
    forall i | 0 <= i < |s'.slots| ensures SlotOk(s', i) {
      assert SlotOk(s, i);
    }
  }

  lemma {:induction false} CallerKeepsOwn(s: State, step: Step, t: nat)
    requires Inv(s) && Thread(step) == Some(t) && Enabled(s, step)
    ensures RequestOk(Apply(s, step), t)
  {
    assert RequestOk(s, t) && SlotOk(s, SlotOf(s, t));
  }

  /** What a request relies on: its own fields, who holds and owns its slot, and the slot if it owns it. */
  lemma {:induction false} RequestFrame(s: State, s': State, u: nat)
    requires |s.slots| == |s'.slots| > 0 && u < |s.requests| <= |s'.requests|
    requires RequestOk(s, u) && s'.requests[u] == s.requests[u] && s'.io == s.io
    requires var slot, slot' := s.slots[SlotOf(s, u)], s'.slots[SlotOf(s, u)];
             && (slot.holder == Caller(u) <==> slot'.holder == Caller(u))
             && (slot.owner == Some(u) <==> slot'.owner == Some(u))
             && (slot.owner == Some(u) ==> slot'.status == slot.status && slot'.sn == slot.sn && slot'.rep == slot.rep)
    requires forall m :: m in s.requests[u].got && Genuine(s, m) ==> Genuine(s', m)
    ensures RequestOk(s', u)
  {
    hide Outcome, DeadlineOf;
  }

  lemma {:induction false} GenuineKept(s: State, step: Step, t: nat, m: Msg)
    requires |s.slots| > 0 && t < |s.requests| && Genuine(s, m)
    ensures Genuine(CallerStep(s, step, t), m)
  {
  }

  lemma {:induction false} CallerKeepsOther(s: State, step: Step, t: nat, u: nat)
    requires Inv(s) && Thread(step) == Some(t) && Enabled(s, step)
    requires u < |s.requests| && u != t
    ensures RequestOk(Apply(s, step), u)
  {
    hide Outcome, RequestAfter, DeadlineOf, Genuine;
    assert RequestOk(s, t) && RequestOk(s, u) && SlotOk(s, SlotOf(s, t));
    var s' := Apply(s, step);
    forall m | m in s.requests[u].got && Genuine(s, m) ensures Genuine(s', m) {
      GenuineKept(s, step, t, m);
    }
    RequestFrame(s, s', u);
  }

  lemma {:induction false} CallerKeepsSlot(s: State, step: Step, t: nat, i: nat)
    requires Inv(s) && Thread(step) == Some(t) && Enabled(s, step)
    requires i < |s.slots|
    ensures SlotOk(Apply(s, step), i)
  {
    hide Outcome;
    assert RequestOk(s, t) && SlotOk(s, i);
  }

  lemma {:induction false} CallerKeepsIo(s: State, step: Step, t: nat)
    requires Inv(s) && Thread(step) == Some(t) && Enabled(s, step)
    ensures IoOk(Apply(s, step))
  {
    hide Outcome;
    assert RequestOk(s, t) && SlotOk(s, SlotOf(s, t));
  }

  /** The request for which the IO thread is about to append: it owns the slot and is in its wait. */
  lemma {:induction false} MatchedRequest(s: State) returns (t: nat)
    requires Inv(s) && s.io.Matched?
    ensures t < |s.requests| && SlotOf(s, t) == At(s, s.io.msg.sn)
    ensures s.slots[SlotOf(s, t)].owner == Some(t) && s.slots[SlotOf(s, t)].rep == s.requests[t].rep
    ensures s.requests[t].pc.Waiting? || s.requests[t].pc.Waking?
    ensures s.requests[t].sn == s.io.msg.sn && s.requests[t].got == []
  {
    var i := At(s, s.io.msg.sn);
    assert SlotOk(s, i);
    t := s.slots[i].owner.value;
    assert RequestOk(s, t);
  }

  lemma {:induction false} IoPushKeeps(s: State)
    requires Inv(s) && s.io.Matched?
    ensures Inv(Apply(s, IoPush))
  {
    var s' := Apply(s, IoPush);
    var v := MatchedRequest(s);
    forall t | 0 <= t < |s'.requests| ensures RequestOk(s', t) {
      assert RequestOk(s, t);
    }
    forall i | 0 <= i < |s'.slots| ensures SlotOk(s', i) {
      assert SlotOk(s, i);
    }
  }

  lemma {:induction false} IoKeeps(s: State, step: Step)
    requires Inv(s) && Enabled(s, step) && Thread(step).None? && !step.TakeTicket? && !step.IoPush?
    ensures Inv(Apply(s, step))
  {
    hide Outcome, DeadlineOf;
    var s' := Apply(s, step);
    assert s'.requests == s.requests;
    forall t | 0 <= t < |s'.requests| ensures RequestOk(s', t) {
      assert RequestOk(s, t) && SlotOk(s, SlotOf(s, t));
    }
    forall i | 0 <= i < |s'.slots| ensures SlotOk(s', i) {
      assert SlotOk(s, i);
    }
  }

  /** Every step of every thread keeps the invariant. */
  lemma {:induction false} StepKeepsInv(s: State, step: Step)
    requires Inv(s) && Enabled(s, step)
    ensures Inv(Apply(s, step))
  {
    if step.TakeTicket? {
      TakeTicketKeeps(s, step);
    } else if step.IoPush? {
      IoPushKeeps(s);
    } else if Thread(step).None? {
      IoKeeps(s, step);
    } else {
      hide RequestOk, SlotOk, IoOk;
      var t, s' := Thread(step).value, Apply(s, step);
      forall u | 0 <= u < |s'.requests| ensures RequestOk(s', u) {
        if u == t {
          CallerKeepsOwn(s, step, t);
        } else {
          CallerKeepsOther(s, step, t, u);
        }
      }
      forall i | 0 <= i < |s'.slots| ensures SlotOk(s', i) {
        CallerKeepsSlot(s, step, t, i);
      }
      CallerKeepsIo(s, step, t);
    }
  }

  lemma {:induction false} RunInv(n: nat, trace: seq<State>, steps: seq<Step>, i: nat)
    requires IsRun(n, trace, steps) && i < |trace|
    ensures Inv(trace[i])
  {
    if i == 0 {
      var buffers :| trace[0] == Init(n, buffers);
      InitInv(n, buffers);
    } else {
      RunInv(n, trace, steps, i - 1);
      StepKeepsInv(trace[i - 1], steps[i - 1]);
    }
  }

  // ------------------------------------------------------------------ what every run guarantees

  /**
   Response isolation. Whatever was appended to a caller's reply buffer carried that
   caller's ticket modulo 2^32; if it answers a request fewer than 2^32 tickets away, it
   answers this very request, whatever timed out on the slot before.
   */
  lemma {:induction false} ResponseIsolation(n: nat, trace: seq<State>, steps: seq<Step>, i: nat, t: nat, m: Msg)
    requires IsRun(n, trace, steps) && i < |trace|
    requires t < |trace[i].requests| && m in trace[i].requests[t].got
    ensures m.sn == t % TICKET_WRAP
    ensures m.answers.Some? ==> m.answers.value in trace[i].sent && m.answers.value % TICKET_WRAP == t % TICKET_WRAP
    ensures m.answers.Some? && -TICKET_WRAP < m.answers.value - t < TICKET_WRAP ==> m.answers.value == t
  {
    RunInv(n, trace, steps, i);
    assert RequestOk(trace[i], t);
    if m.answers.Some? {
      var q := m.answers.value;
      assert RequestOk(trace[i], q);
      if q < t < q + TICKET_WRAP {
        NearbyRemaindersDiffer(q, t, TICKET_WRAP);
      } else if t < q < t + TICKET_WRAP {
        NearbyRemaindersDiffer(t, q, TICKET_WRAP);
      }
    }
  }

  /** Slot ownership: between compare-and-swap and IDLE a slot has exactly one owner, and is not IDLE. */
  lemma {:induction false} SlotOwnership(n: nat, trace: seq<State>, steps: seq<Step>, i: nat, t: nat, u: nat)
    requires IsRun(n, trace, steps) && i < |trace|
    requires t < |trace[i].requests| && u < |trace[i].requests|
    requires Owns(trace[i].requests[t].pc)
    ensures !trace[i].slots[SlotOf(trace[i], t)].status.Idle?
    ensures Owns(trace[i].requests[u].pc) && SlotOf(trace[i], u) == SlotOf(trace[i], t) ==> u == t
  {
    RunInv(n, trace, steps, i);
    assert RequestOk(trace[i], t) && RequestOk(trace[i], u) && SlotOk(trace[i], SlotOf(trace[i], t));
  }

  // ------------------------------------------------------------------ return codes

  /** The last timed wait ended with ETIMEDOUT. */
  predicate Late(pc: Pc) {
    match pc
    case Waking(r) => r.TimedOut?
    case Woke(r) => r.TimedOut?
    case Leaving(r) => r.TimedOut?
    case Released(r) => r.TimedOut?
    case Returned(code) => code.ETimeout?
    case _ => false
  }

  predicate TurnedAway(pc: Pc) {
    pc.Refused? || pc == Returned(EBusy)
  }

  predicate Sent(pc: Pc) {
    !Unsent(pc) && pc != Returned(EBusy)
  }

  /** The step finds the slot in use: its mutex is taken, or its status is not IDLE. */
  predicate FindsBusy(step: Step, slot: Slot) {
    (step.TryLock? && !slot.holder.Nobody?) || (step.Swap? && !slot.status.Idle?)
  }

  /** What one step of a request means for its past. */
  lemma {:induction false} OwnStepHistory(step: Step, q: Request, slot: Slot)
    requires CallerEnabled(step, q, slot)
    ensures var q' := RequestAfter(step, q, slot);
            && !q.pc.Returned? && q' == q.(pc := q'.pc, sentAt := q'.sentAt)
            && (q'.sentAt == if step.Send? then step.now else q.sentAt)
            && (Sent(q'.pc) <==> Sent(q.pc) || step.Send?) && (step.Send? ==> !Late(q'.pc))
            && (Late(q'.pc) <==> Late(q.pc) || (step.EndWait? && step.ret.TimedOut?))
            && (step.EndWait? && step.ret.TimedOut? ==> Nanos(step.now) >= Nanos(DeadlineOf(q)))
            && (TurnedAway(q'.pc) <==> TurnedAway(q.pc) || FindsBusy(step, slot))
            && (Began(q'.pc) <==> Began(q.pc) || step.Clear?) && (step.Clear? ==> Unsent(q.pc))
  {
    hide DeadlineOf;
  }

  /** A request changes by its own steps only, but for what is appended for it. */
  lemma {:induction false} RequestStep(s: State, step: Step, t: nat)
    requires |s.slots| > 0 && Enabled(s, step) && t < |s.requests|
    ensures t < |Apply(s, step).requests|
    ensures Thread(step) == Some(t) ==>
              && CallerEnabled(step, s.requests[t], s.slots[SlotOf(s, t)])
              && Apply(s, step).requests[t] == RequestAfter(step, s.requests[t], s.slots[SlotOf(s, t)])
    ensures Thread(step) != Some(t) ==>
              Apply(s, step).requests[t] == s.requests[t].(got := Apply(s, step).requests[t].got)
  {
    hide RequestAfter, SlotAfter, DeadlineOf, Normalised, Genuine, CallerEnabled;
  }

  /** The request came with the step that took ticket `t`. */
  lemma {:induction false} TicketHistory(n: nat, trace: seq<State>, steps: seq<Step>, i: nat, t: nat) returns (k: nat)
    requires IsRun(n, trace, steps) && i < |trace| && t < |trace[i].requests|
    ensures k < i && |trace[k].requests| == t
    ensures steps[k] == TakeTicket(trace[i].requests[t].rep, trace[i].requests[t].timeout)
  {
    hide Apply, Enabled;
    var s, step := trace[i - 1], steps[i - 1];
    if t < |s.requests| {
      k := TicketHistory(n, trace, steps, i - 1, t);
      RequestStep(s, step, t);
      if Thread(step) == Some(t) {
        OwnStepHistory(step, s.requests[t], s.slots[SlotOf(s, t)]);
      }
    } else {
      k := i - 1;
      NewRequest(s, step);
    }
  }

  lemma {:induction false} NewRequest(s: State, step: Step)
    requires |s.slots| > 0 && Enabled(s, step) && |Apply(s, step).requests| > |s.requests|
    ensures step.TakeTicket? && |Apply(s, step).requests| == |s.requests| + 1
    ensures var q := Apply(s, step).requests[|s.requests|];
            q.rep == step.rep && q.timeout == step.timeout && q.pc == Ticketed
  {
    hide RequestAfter, SlotAfter;
  }

  /** `sentAt` is the clock with which the request was sent. */
  lemma {:induction false} SendHistory(n: nat, trace: seq<State>, steps: seq<Step>, i: nat, t: nat) returns (k: nat)
    requires IsRun(n, trace, steps) && i < |trace| && t < |trace[i].requests| && Sent(trace[i].requests[t].pc)
    ensures k < i && steps[k] == Send(t, trace[i].requests[t].sentAt)
  {
    hide Apply, Enabled;
    var s, step := trace[i - 1], steps[i - 1];
    if t < |s.requests| {
      RequestStep(s, step, t);
      if Thread(step) == Some(t) {
        OwnStepHistory(step, s.requests[t], s.slots[SlotOf(s, t)]);
      }
      if step.Send? && step.t == t {
        k := i - 1;
      } else {
        k := SendHistory(n, trace, steps, i - 1, t);
      }
    } else {
      NewRequest(s, step);
    }
  }

  lemma {:induction false} NoStepYet(n: nat, trace: seq<State>, steps: seq<Step>, i: nat, k: nat, t: nat)
    requires IsRun(n, trace, steps) && k < i < |trace| && t >= |trace[i].requests|
    ensures Thread(steps[k]) != Some(t)
    decreases i
  {
    hide Apply;
    var s, step := trace[i - 1], steps[i - 1];
    if t < |s.requests| {
      RequestStep(s, step, t);
    } else if k < i - 1 {
      NoStepYet(n, trace, steps, i - 1, k, t);
    }
  }

  predicate TimesOut(step: Step, t: nat) {
    step.EndWait? && step.t == t && step.ret.TimedOut?
  }

  /** Before state `i`, the timed wait of request `t` ended with ETIMEDOUT. */
  ghost predicate TimedOutBefore(steps: seq<Step>, i: nat, t: nat) {
    exists k: nat :: k < i <= |steps| && TimesOut(steps[k], t)
  }

  lemma {:induction false} LateIff(n: nat, trace: seq<State>, steps: seq<Step>, i: nat, t: nat)
    requires IsRun(n, trace, steps) && i < |trace| && t < |trace[i].requests|
    ensures Late(trace[i].requests[t].pc) <==> TimedOutBefore(steps, i, t)
  {
    hide Apply, Enabled;
    var s, step := trace[i - 1], steps[i - 1];
    if t < |s.requests| {
      LateIff(n, trace, steps, i - 1, t);
      RequestStep(s, step, t);
      if Thread(step) == Some(t) {
        OwnStepHistory(step, s.requests[t], s.slots[SlotOf(s, t)]);
      }
    } else {
      NewRequest(s, step);
      forall k: nat | k < i - 1 ensures !TimesOut(steps[k], t) {
        NoStepYet(n, trace, steps, i - 1, k, t);
      }
    }
  }

  /** Step `k` is the trylock or the compare-and-swap of request `t` and finds its slot in use. */
  ghost predicate BusyAt(n: nat, trace: seq<State>, steps: seq<Step>, k: nat, t: nat) {
    && n > 0 && k < |steps| < |trace| && |trace[k].slots| == n
    && Thread(steps[k]) == Some(t) && FindsBusy(steps[k], trace[k].slots[(t % 0x1_0000_0000) % n])
  }

  ghost predicate TurnedAwayBefore(n: nat, trace: seq<State>, steps: seq<Step>, i: nat, t: nat) {
    exists k: nat :: k < i && BusyAt(n, trace, steps, k, t)
  }

  lemma {:induction false} TurnedAwayIff(n: nat, trace: seq<State>, steps: seq<Step>, i: nat, t: nat)
    requires IsRun(n, trace, steps) && i < |trace| && t < |trace[i].requests|
    ensures TurnedAway(trace[i].requests[t].pc) <==> TurnedAwayBefore(n, trace, steps, i, t)
  {
    hide Apply, Enabled;
    var s, step := trace[i - 1], steps[i - 1];
    if t < |s.requests| {
      TurnedAwayIff(n, trace, steps, i - 1, t);
      RequestStep(s, step, t);
      SlotOfTicket(n, trace, steps, i - 1, t);
      if Thread(step) == Some(t) {
        OwnStepHistory(step, s.requests[t], s.slots[SlotOf(s, t)]);
        assert BusyAt(n, trace, steps, i - 1, t) <==> FindsBusy(step, s.slots[SlotOf(s, t)]);
      }
    } else {
      NewRequest(s, step);
      forall k: nat | k < i ensures !BusyAt(n, trace, steps, k, t) {
        if k < i - 1 {
          NoStepYet(n, trace, steps, i - 1, k, t);
        }
      }
    }
  }

  lemma {:induction false} SlotOfTicket(n: nat, trace: seq<State>, steps: seq<Step>, i: nat, t: nat)
    requires IsRun(n, trace, steps) && i < |trace| && t < |trace[i].requests|
    ensures |trace[i].slots| == n && SlotOf(trace[i], t) == (t % 0x1_0000_0000) % n
  {
    RunInv(n, trace, steps, i);
    assert RequestOk(trace[i], t);
  }

  /**
   What a return code means. Busy: the trylock or the compare-and-swap of this request found its slot
   in use, and there is no response. Timeout: its timed wait ended with ETIMEDOUT, and a response may
   have arrived late. OK: neither; with a deadline that the wait accepts exactly one response arrived, with
   one that it does not accept, none.
   */
  lemma {:induction false} ReturnCodes(n: nat, trace: seq<State>, steps: seq<Step>, i: nat, t: nat)
    requires IsRun(n, trace, steps) && i < |trace|
    requires t < |trace[i].requests| && trace[i].requests[t].pc.Returned?
    ensures var q := trace[i].requests[t];
            && (q.pc.code.EBusy? <==> TurnedAwayBefore(n, trace, steps, i, t))
            && (q.pc.code.ETimeout? <==> TimedOutBefore(steps, i, t))
            && (q.pc.code.EBusy? ==> q.got == [])
            && (q.pc.code.ETimeout? ==> |q.got| <= 1 && Normalised(DeadlineOf(q)))
            && (q.pc.code.Ok? ==> (|q.got| == 1 <==> Normalised(DeadlineOf(q))))
            && (q.pc.code.Ok? ==> (q.got == [] <==> !Normalised(DeadlineOf(q))))
  {
    LateIff(n, trace, steps, i, t);
    TurnedAwayIff(n, trace, steps, i, t);
    RunInv(n, trace, steps, i);
    assert RequestOk(trace[i], t);
  }

  lemma {:induction false} TimeoutHistory(n: nat, trace: seq<State>, steps: seq<Step>, i: nat, t: nat) returns (k: nat)
    requires IsRun(n, trace, steps) && i < |trace| && t < |trace[i].requests| && Late(trace[i].requests[t].pc)
    ensures k < i && TimesOut(steps[k], t) && Nanos(steps[k].now) >= Nanos(DeadlineOf(trace[i].requests[t]))
  {
    hide Apply, Enabled;
    var s, step := trace[i - 1], steps[i - 1];
    if t < |s.requests| {
      RequestStep(s, step, t);
      if Thread(step) == Some(t) {
        OwnStepHistory(step, s.requests[t], s.slots[SlotOf(s, t)]);
      }
      if TimesOut(step, t) {
        k := i - 1;
      } else {
        k := TimeoutHistory(n, trace, steps, i - 1, t);
      }
    } else {
      NewRequest(s, step);
    }
  }

  /**
   A request does not time out early. It took its ticket with some timeout (step a), was sent at some
   clock (step b), and its wait ended with ETIMEDOUT (step k) at a clock that is later by the timeout at least, where
   timeouts above 10000 ms count as 10000 ms.
   */
  lemma {:induction false} TimeoutNotEarly(n: nat, trace: seq<State>, steps: seq<Step>, i: nat, t: nat)
    returns (a: nat, b: nat, k: nat)
    requires IsRun(n, trace, steps) && i < |trace|
    requires t < |trace[i].requests| && trace[i].requests[t].pc == Returned(ETimeout)
    ensures a < i && |trace[a].requests| == t && steps[a].TakeTicket?
    ensures b < i && steps[b].Send? && steps[b].t == t
    ensures k < i && TimesOut(steps[k], t)
    ensures var sent, now, timeout := steps[b].now, steps[k].now, steps[a].timeout;
            (now.sec - sent.sec) * 1_000_000_000 + (now.nsec - sent.nsec)
            >= (if timeout <= 10000 then timeout else 10000) * 1_000_000
  {
    hide IsRun;
    a := TicketHistory(n, trace, steps, i, t);
    b := SendHistory(n, trace, steps, i, t);
    k := TimeoutHistory(n, trace, steps, i, t);
    DeadlineInNumbers(trace[i].requests[t].sentAt, trace[i].requests[t].timeout);
  }

  /** OK without a response happens exactly for timeouts that carry the clock past two seconds. */
  lemma {:induction false} OkWithoutReplyIff(n: nat, trace: seq<State>, steps: seq<Step>, i: nat, t: nat)
    requires IsRun(n, trace, steps) && i < |trace|
    requires t < |trace[i].requests| && trace[i].requests[t].pc == Returned(Ok)
    ensures var q := trace[i].requests[t];
            q.got == [] <==> q.sentAt.nsec + (if q.timeout <= 10000 then q.timeout else 10000) * 1_000_000 >= 2_000_000_000
  {
    ReturnCodes(n, trace, steps, i, t);
    RunInv(n, trace, steps, i);
    assert RequestOk(trace[i], t);
    var q := trace[i].requests[t];
    DeadlineInNumbers(q.sentAt, q.timeout);
  }

  lemma {:induction false} ReturnedStays(s: State, step: Step, t: nat)
    requires Inv(s) && Enabled(s, step)
    requires t < |s.requests| && s.requests[t].pc.Returned?
    ensures t < |Apply(s, step).requests| && Apply(s, step).requests[t] == s.requests[t]
  {
    hide RequestOk, SlotOk, IoOk, DeadlineOf, Genuine, SlotAfter;
    if step.IoPush? {
      var v := MatchedRequest(s);
    }
  }

  /** A request that has returned is never touched again; in particular nothing is appended for it. */
  lemma {:induction false} ReturnedIsFinal(n: nat, trace: seq<State>, steps: seq<Step>, i: nat, j: nat, t: nat)
    requires IsRun(n, trace, steps) && i <= j < |trace|
    requires t < |trace[i].requests| && trace[i].requests[t].pc.Returned?
    ensures t < |trace[j].requests| && trace[j].requests[t] == trace[i].requests[t]
    decreases j
  {
    hide Inv, Apply, Enabled;
    if i < j {
      ReturnedIsFinal(n, trace, steps, i, j - 1, t);
      RunInv(n, trace, steps, j - 1);
      ReturnedStays(trace[j - 1], steps[j - 1], t);
    }
  }

  /** No response is dropped wrongly: one that finds its request still waiting is appended for it. */
  lemma {:induction false} ResponseReachesWaiter(s: State, t: nat)
    requires Inv(s) && s.io.Holds? && t < |s.requests|
    requires s.requests[t].pc.Waiting? || s.requests[t].pc.Waking?
    requires s.requests[t].got == [] && s.io.msg.sn == s.requests[t].sn
    ensures Enabled(s, IoMatch) && Enabled(Apply(s, IoMatch), IoPush)
    ensures var s' := Apply(Apply(s, IoMatch), IoPush);
            s'.requests == s.requests[t := s.requests[t].(got := [s.io.msg])]
  {
    hide Outcome, DeadlineOf;
    assert RequestOk(s, t) && SlotOk(s, SlotOf(s, t));
    assert s.requests[t].got + [s.io.msg] == [s.io.msg];
  }

  // ------------------------------------------------------------------ the mutexes

  /** How many steps a caller that holds its slot's mutex can still take before it releases it. */
  function StepsLeft(pc: Pc): nat {
    match pc
    case Locked => 10
    case Owner => 9
    case Cleared => 8
    case SeqStored => 7
    case Filled => 6
    case Woke(r) => if r.Woken? then 5 else 3
    case Testing => 4
    case Leaving(_) => 2
    case Released(_) => 1
    case Refused => 1
    case _ => 0
  }

  function IoStepsLeft(io: Io): nat {
    match io
    case Holds(_) => 4
    case Matched(_) => 3
    case Pushed(_) => 2
    case Finished(_) => 1
    case _ => 0
  }

  function OwnStep(pc: Pc, t: nat): Step {
    match pc
    case Locked => Swap(t)
    case Refused => GiveUp(t)
    case Owner => Clear(t)
    case Cleared => StoreSeq(t)
    case SeqStored => StoreRep(t)
    case Filled => Send(t, Time(0, 0))
    case Testing => Test(t)
    case Woke(_) => CheckWait(t)
    case Leaving(_) => StoreIdle(t)
    case _ => Unlock(t)
  }

  lemma {:induction false} StepsLeftDecreases(step: Step, q: Request, slot: Slot)
    requires HasLock(q.pc) && CallerEnabled(step, q, slot)
    ensures !HasLock(RequestAfter(step, q, slot).pc) || StepsLeft(RequestAfter(step, q, slot).pc) < StepsLeft(q.pc)
  {
  }

  /**
   No caller blocks while it holds a mutex: in every reachable state a caller that holds its
   slot's mutex has an enabled step, and each of its steps releases the mutex or brings the
   release closer.
   */
  lemma {:induction false} CallerReleasesMutex(s: State, t: nat, step: Step)
    requires Inv(s) && t < |s.requests| && HasLock(s.requests[t].pc)
    ensures Thread(OwnStep(s.requests[t].pc, t)) == Some(t) && Enabled(s, OwnStep(s.requests[t].pc, t))
    ensures Thread(step) == Some(t) && Enabled(s, step) ==>
              var pc := Apply(s, step).requests[t].pc;
              !HasLock(pc) || StepsLeft(pc) < StepsLeft(s.requests[t].pc)
  {
    hide RequestOk, SlotOk, IoOk, Outcome, SlotAfter, RequestAfter, StepsLeft;
    if Thread(step) == Some(t) && Enabled(s, step) {
      StepsLeftDecreases(step, s.requests[t], s.slots[SlotOf(s, t)]);
    }
  }

  lemma {:induction false} IoReleasesMutex(s: State, i: nat)
    requires Inv(s) && i < |s.slots| && s.slots[i].holder.IoThread?
    ensures exists own :: Thread(own).None? && !own.TakeTicket? && Enabled(s, own)
                          && (Apply(s, own).io.Resting? || IoStepsLeft(Apply(s, own).io) < IoStepsLeft(s.io))
  {
    assert SlotOk(s, i);
    var own := match s.io
      case Holds(_) => IoMatch
      case Matched(_) => IoPush
      case Pushed(_) => IoDone
      case _ => IoUnlock;
    assert Enabled(s, own);
  }

  // ------------------------------------------------------------------ reply buffers

  /** A caller does not pass a buffer that another of its requests is still using. */
  ghost predicate Polite(s: State, step: Step) {
    step.TakeTicket? ==>
      forall t :: 0 <= t < |s.requests| && !s.requests[t].pc.Returned? ==> s.requests[t].rep != step.rep
  }

  /** The reply buffer has been cleared for this request. */
  predicate Began(pc: Pc) {
    !(pc.Ticketed? || pc.Locked? || pc.Refused? || pc.Owner? || pc == Returned(EBusy))
  }

  function Reply(got: seq<Msg>): Bytes {
    if got == [] then [] else got[0].payload
  }

  ghost predicate LastUser(s: State, t: nat)
    requires t < |s.requests|
  {
    forall u :: t < u < |s.requests| ==> s.requests[u].rep != s.requests[t].rep
  }

  /** A buffer holds the reply of the last request that was given it. */
  ghost predicate BuffersOk(s: State) {
    && (forall t, u :: 0 <= t < u < |s.requests| && !s.requests[t].pc.Returned? ==> s.requests[t].rep != s.requests[u].rep)
    && (forall t :: 0 <= t < |s.requests| && Began(s.requests[t].pc) && LastUser(s, t) ==>
          Buffer(s, s.requests[t].rep) == Reply(s.requests[t].got))
  }

  lemma {:induction false} LastUserBefore(s: State, s': State, u: nat)
    requires u < |s.requests| <= |s'.requests| && LastUser(s', u)
    requires forall x :: 0 <= x < |s.requests| ==> s'.requests[x].rep == s.requests[x].rep
    ensures LastUser(s, u)
  {
    forall x | u < x < |s.requests| ensures s.requests[x].rep != s.requests[u].rep {
      assert s'.requests[x].rep == s.requests[x].rep;
    }
  }

  lemma {:induction false} CallerKeepsBuffers(s: State, step: Step, t: nat)
    requires Inv(s) && Thread(step) == Some(t) && Enabled(s, step) && BuffersOk(s)
    ensures BuffersOk(Apply(s, step))
  {
    hide RequestOk, SlotOk, IoOk, SlotAfter, RequestAfter, CallerEnabled, Began, Unsent;
    var s' := Apply(s, step);
    OwnStepHistory(step, s.requests[t], s.slots[SlotOf(s, t)]);
    OwnGotKept(s, t);
    forall u | 0 <= u < |s'.requests| && Began(s'.requests[u].pc) && LastUser(s', u)
      ensures Buffer(s', s'.requests[u].rep) == Reply(s'.requests[u].got)
    {
      LastUserBefore(s, s', u);
    }
  }

  lemma {:induction false} OwnGotKept(s: State, t: nat)
    requires Inv(s) && t < |s.requests|
    ensures Unsent(s.requests[t].pc) ==> s.requests[t].got == []
  {
    assert RequestOk(s, t);
  }

  lemma {:induction false} IoPushKeepsBuffers(s: State)
    requires Inv(s) && s.io.Matched? && BuffersOk(s)
    ensures BuffersOk(Apply(s, IoPush))
  {
    hide RequestOk, SlotOk, IoOk;
    var s' := Apply(s, IoPush);
    var v := MatchedRequest(s);
    forall u | 0 <= u < |s'.requests| && Began(s'.requests[u].pc) && LastUser(s', u)
      ensures Buffer(s', s'.requests[u].rep) == Reply(s'.requests[u].got)
    {
      LastUserBefore(s, s', u);
    }
  }

  lemma {:induction false} TakeTicketKeepsBuffers(s: State, step: Step)
    requires Inv(s) && step.TakeTicket? && Polite(s, step) && BuffersOk(s)
    ensures BuffersOk(Apply(s, step))
  {
    hide RequestOk, SlotOk, IoOk;
    var s' := Apply(s, step);
    forall u | 0 <= u < |s'.requests| && Began(s'.requests[u].pc) && LastUser(s', u)
      ensures Buffer(s', s'.requests[u].rep) == Reply(s'.requests[u].got)
    {
      if u < |s.requests| {
        LastUserBefore(s, s', u);
      }
    }
  }

  /**
   If no buffer is given to two unfinished requests, every buffer holds exactly the
   response of the last request it was given to, also long after that request returned.
   */
  lemma {:induction false} BufferHoldsReply(n: nat, trace: seq<State>, steps: seq<Step>, i: nat)
    requires IsRun(n, trace, steps) && i < |trace|
    requires forall k :: 0 <= k < |steps| ==> Polite(trace[k], steps[k])
    ensures BuffersOk(trace[i])
  {
    if i > 0 {
      BufferHoldsReply(n, trace, steps, i - 1);
      RunInv(n, trace, steps, i - 1);
      hide BuffersOk, Inv;
      var s, step := trace[i - 1], steps[i - 1];
      if step.TakeTicket? {
        TakeTicketKeepsBuffers(s, step);
      } else if step.IoPush? {
        IoPushKeepsBuffers(s);
      } else if Thread(step).Some? {
        CallerKeepsBuffers(s, step, Thread(step).value);
      } else {
        OtherIoKeepsBuffers(s, step);
      }
    }
  }

  lemma {:induction false} OtherIoKeepsBuffers(s: State, step: Step)
    requires |s.slots| > 0 && Enabled(s, step) && Thread(step).None? && !step.TakeTicket? && !step.IoPush?
    requires BuffersOk(s)
    ensures BuffersOk(Apply(s, step))
  {
    var s' := Apply(s, step);
    assert s'.requests == s.requests && s'.buffers == s.buffers;
    forall u | 0 <= u < |s'.requests| && LastUser(s', u) ensures LastUser(s, u) {
      LastUserBefore(s, s', u);
    }
  }

  /** One enabled step of request `t` takes its program counter from what it is to `pc`. */
  ghost predicate Advances(s: State, step: Step, s': State, t: nat, pc: Pc) {
    && |s.slots| > 0 && Enabled(s, step) && s' == Apply(s, step)
    && t < |s'.requests| && s'.requests[t].pc == pc
  }

  lemma {:induction false} FilledIsBusy(s: State, t: nat)
    requires Inv(s) && t < |s.requests| && s.requests[t].pc.Filled?
    ensures |s.slots| > 0 && s.slots[SlotOf(s, t)].status.Busy? && s.requests[t].got == []
  {
    assert RequestOk(s, t);
  }

  /**
   Why OK can come without a response: from every reachable state, a request whose
   clock and timeout carry past two seconds runs from its send to its return on its own,
   never releasing the mutex, and returns OK.
   */
  lemma {:induction false} OverlongTimeoutReturnsOkAtOnce(s: State, t: nat, now: Time)
    returns (s1: State, s2: State, s3: State, s4: State, s5: State)
    requires Inv(s) && t < |s.requests| && s.requests[t].pc.Filled? && Normalised(now)
    requires now.nsec + (if s.requests[t].timeout <= 10000 then s.requests[t].timeout else 10000) * 1_000_000 >= 2_000_000_000
    ensures Advances(s, Send(t, now), s1, t, Testing)
    ensures Advances(s1, Test(t), s2, t, Woke(Invalid))
    ensures Advances(s2, CheckWait(t), s3, t, Leaving(Invalid))
    ensures Advances(s3, StoreIdle(t), s4, t, Released(Invalid))
    ensures Advances(s4, Unlock(t), s5, t, Returned(Ok))
    ensures s5.requests[t].got == []
  {
    hide RequestOk, SlotOk, IoOk, Inv, OffsetBy, ClampTimeout, Genuine;
    FilledIsBusy(s, t);
    DeadlineInNumbers(now, s.requests[t].timeout);
    s1 := Apply(s, Send(t, now));
    s2 := Apply(s1, Test(t));
    s3 := Apply(s2, CheckWait(t));
    s4 := Apply(s3, StoreIdle(t));
    s5 := Apply(s4, Unlock(t));
  }
}
