/**
 What the request protocol can always do: the steps of a request that nobody disturbs, from every state that
 allows them, with the exact state they lead to.
 */
module RequestPaths {
  import opened Deadline
  import opened RequestSlots

  /** One enabled step. */
  ghost predicate Steps(s: State, step: Step, s': State) {
    |s.slots| > 0 && Enabled(s, step) && s' == Apply(s, step)
  }

  /** These steps are possible one after the other and lead from `s` to `s'`. */
  ghost predicate Leads(s: State, steps: seq<Step>, s': State)
    decreases |steps|
  {
    if steps == [] then s' == s
    else |s.slots| > 0 && Enabled(s, steps[0]) && Leads(Apply(s, steps[0]), steps[1..], s')
  }

  lemma {:induction false} LeadsFirst(s: State, step: Step, rest: seq<Step>, u: State, s': State)
    requires Steps(s, step, u) && Leads(u, rest, s')
    ensures Leads(s, [step] + rest, s')
  {
    hide Enabled, Apply;
    assert ([step] + rest)[1..] == rest;
  }

  lemma {:induction false} LeadsJoin(s: State, a: seq<Step>, u: State, b: seq<Step>, s': State)
    requires Leads(s, a, u) && Leads(u, b, s')
    ensures Leads(s, a + b, s')
    decreases |a|
  {
    hide Enabled, Apply;
    if a == [] {
      assert a + b == b;
    } else {
      LeadsJoin(Apply(s, a[0]), a[1..], u, b, s');
      assert a + b == [a[0]] + (a[1..] + b);
      LeadsFirst(s, a[0], a[1..] + b, Apply(s, a[0]), s');
    }
  }

  // ------------------------------------------------------------------ the steps of one caller

  /** What a caller's steps read and write: its request, its slot, the buffers and the set of sent requests. */
  datatype Local = Local(q: Request, slot: Slot, buffers: map<nat, Bytes>, sent: set<nat>)

  function LocalOf(s: State, t: nat): Local
    requires |s.slots| > 0 && t < |s.requests|
  {
    Local(s.requests[t], s.slots[SlotOf(s, t)], s.buffers, s.sent)
  }

  /** The state with the caller's part replaced. */
  function With(s: State, t: nat, v: Local): State
    requires |s.slots| > 0 && t < |s.requests|
  {
    s.(requests := s.requests[t := v.q], slots := s.slots[SlotOf(s, t) := v.slot], buffers := v.buffers, sent := v.sent)
  }

  function LocalAfter(step: Step, t: nat, v: Local): Local {
    Local(RequestAfter(step, v.q, v.slot), SlotAfter(step, t, v.q, v.slot),
          if step.Clear? then v.buffers[v.q.rep := []] else v.buffers,
          if step.Send? then v.sent + {t} else v.sent)
  }

  lemma {:induction false} LocalStep(s: State, t: nat, v: Local, step: Step)
    requires |s.slots| > 0 && t < |s.requests| && v.q.sn == s.requests[t].sn
    requires Thread(step) == Some(t) && CallerEnabled(step, v.q, v.slot)
    ensures Steps(With(s, t, v), step, With(s, t, LocalAfter(step, t, v)))
    ensures LocalAfter(step, t, v).q.sn == v.q.sn
  {
    hide SlotAfter, DeadlineOf;
  }

  /** A sequence of a caller's own steps. */
  ghost predicate LocalRun(t: nat, vs: seq<Local>, a: seq<Step>) {
    && |vs| == |a| + 1
    && forall i :: 0 <= i < |a| ==>
         && Thread(a[i]) == Some(t) && CallerEnabled(a[i], vs[i].q, vs[i].slot)
         && vs[i + 1] == LocalAfter(a[i], t, vs[i])
  }

  lemma {:induction false} LocalRunLeads(s: State, t: nat, vs: seq<Local>, a: seq<Step>)
    requires |s.slots| > 0 && t < |s.requests| && LocalRun(t, vs, a) && vs[0].q.sn == s.requests[t].sn
    ensures Leads(With(s, t, vs[0]), a, With(s, t, vs[|a|]))
    decreases |a|
  {
    hide CallerEnabled, LocalAfter, Steps, With;
    if a != [] {
      LocalStep(s, t, vs[0], a[0]);
      assert LocalRun(t, vs[1..], a[1..]) by {
        forall i | 0 <= i < |a| - 1
          ensures && Thread(a[1..][i]) == Some(t) && CallerEnabled(a[1..][i], vs[1..][i].q, vs[1..][i].slot)
                  && vs[1..][i + 1] == LocalAfter(a[1..][i], t, vs[1..][i])
        {
          assert a[1..][i] == a[i + 1] && vs[1..][i] == vs[i + 1] && vs[1..][i + 1] == vs[i + 1 + 1];
        }
      }
      LocalRunLeads(s, t, vs[1..], a[1..]);
      LeadsFirst(With(s, t, vs[0]), a[0], a[1..], With(s, t, vs[1]), With(s, t, vs[|a|]));
      assert a == [a[0]] + a[1..];
    }
  }

  lemma {:induction false} WithOwn(s: State, t: nat)
    requires |s.slots| > 0 && t < |s.requests|
    ensures With(s, t, LocalOf(s, t)) == s
  {
  }

  /** The caller's own steps lead to the state with its part replaced. */
  lemma {:induction false} OwnSteps(s: State, t: nat, vs: seq<Local>, a: seq<Step>)
    requires |s.slots| > 0 && t < |s.requests| && LocalRun(t, vs, a) && vs[0] == LocalOf(s, t)
    ensures Leads(s, a, With(s, t, vs[|a|]))
  {
    WithOwn(s, t);
    LocalRunLeads(s, t, vs, a);
  }

  // ------------------------------------------------------------------ a request from ticket to return

  /** A ticket whose slot is unheld and IDLE gets the slot. */
  lemma {:induction false} FreeSlotIsAcquired(s: State, t: nat) returns (s': State)
    requires |s.slots| > 0 && t < |s.requests| && s.requests[t].pc == Ticketed
    requires s.slots[SlotOf(s, t)].holder == Nobody && s.slots[SlotOf(s, t)].status == Idle
    ensures Leads(s, [TryLock(t), Swap(t)], s')
    ensures s' == s.(requests := s.requests[t := s.requests[t].(pc := Owner)],
                     slots := s.slots[SlotOf(s, t) := s.slots[SlotOf(s, t)].(holder := Caller(t), status := Busy, owner := Some(t))])
  {
    var v0 := LocalOf(s, t);
    var v1 := LocalAfter(TryLock(t), t, v0);
    var v2 := LocalAfter(Swap(t), t, v1);
    OwnSteps(s, t, [v0, v1, v2], [TryLock(t), Swap(t)]);
    s' := With(s, t, v2);
  }

  /** A ticket whose slot is in use comes back busy and leaves everything else as it was. */
  lemma {:induction false} UsedSlotIsBusy(s: State, t: nat) returns (s': State)
    requires |s.slots| > 0 && t < |s.requests| && s.requests[t].pc == Ticketed
    requires s.slots[SlotOf(s, t)].holder != Nobody || s.slots[SlotOf(s, t)].status != Idle
    ensures Leads(s, if s.slots[SlotOf(s, t)].holder != Nobody then [TryLock(t)] else [TryLock(t), Swap(t), GiveUp(t)], s')
    ensures s' == s.(requests := s.requests[t := s.requests[t].(pc := Returned(EBusy))])
  {
    var v0 := LocalOf(s, t);
    var v1 := LocalAfter(TryLock(t), t, v0);
    if v0.slot.holder != Nobody {
      OwnSteps(s, t, [v0, v1], [TryLock(t)]);
      s' := With(s, t, v1);
    } else {
      var v2 := LocalAfter(Swap(t), t, v1);
      var v3 := LocalAfter(GiveUp(t), t, v2);
      OwnSteps(s, t, [v0, v1, v2, v3], [TryLock(t), Swap(t), GiveUp(t)]);
      s' := With(s, t, v3);
      assert v3.slot == v0.slot;
    }
    assert s'.slots == s.slots;
  }

  /** The owner of a slot clears its buffer, fills the slot, sends, and waits without the mutex. */
  lemma {:induction false} OwnerSendsAndWaits(s: State, t: nat, now: Time) returns (s': State)
    requires |s.slots| > 0 && t < |s.requests| && s.requests[t].pc == Owner
    requires s.slots[SlotOf(s, t)].status == Busy
    requires 0 <= now.nsec < 1_000_000_000
    requires now.nsec + (if s.requests[t].timeout <= 10000 then s.requests[t].timeout else 10000) * 1_000_000 < 2_000_000_000
    ensures Leads(s, [Clear(t), StoreSeq(t), StoreRep(t), Send(t, now), Test(t)], s')
    ensures var q := s.requests[t];
            s' == s.(requests := s.requests[t := q.(pc := Waiting, sentAt := now)],
                     slots := s.slots[SlotOf(s, t) := s.slots[SlotOf(s, t)].(holder := Nobody, sn := q.sn, rep := q.rep)],
                     buffers := s.buffers[q.rep := []], sent := s.sent + {t})
  {
    DeadlineInNumbers(now, s.requests[t].timeout);
    var v0 := LocalOf(s, t);
    var v1 := LocalAfter(Clear(t), t, v0);
    var v2 := LocalAfter(StoreSeq(t), t, v1);
    var v3 := LocalAfter(StoreRep(t), t, v2);
    var v4 := LocalAfter(Send(t, now), t, v3);
    var v5 := LocalAfter(Test(t), t, v4);
    OwnSteps(s, t, [v0, v1, v2, v3, v4, v5], [Clear(t), StoreSeq(t), StoreRep(t), Send(t, now), Test(t)]);
    s' := With(s, t, v5);
  }

  /** A response for the request in a slot is matched. */
  lemma {:induction false} ResponseIsMatched(s: State, m: Msg) returns (s': State)
    requires |s.slots| > 0 && s.io == Resting && m.sn < TICKET_WRAP && Genuine(s, m)
    requires var slot := s.slots[m.sn % |s.slots|]; slot.holder == Nobody && slot.status == Busy && slot.sn == m.sn
    ensures Leads(s, [Receive(m), IoLock, IoMatch], s')
    ensures s' == s.(io := Matched(m),
                     slots := s.slots[m.sn % |s.slots| := s.slots[m.sn % |s.slots|].(holder := IoThread)])
  {
    hide RequestAfter, SlotAfter, CallerEnabled, Leads;
    var s1 := Apply(s, Receive(m));
    var s2 := Apply(s1, IoLock);
    s' := Apply(s2, IoMatch);
    LeadsAll([s, s1, s2, s'], [Receive(m), IoLock, IoMatch]);
  }

  /** A matched response is appended for the owner of the slot. */
  lemma {:induction false} MatchedIsAppended(s: State, t: nat) returns (s': State)
    requires |s.slots| > 0 && t < |s.requests| && s.io.Matched?
    requires s.slots[s.io.msg.sn % |s.slots|].owner == Some(t)
    ensures Leads(s, [IoPush, IoDone, IoUnlock], s')
    ensures var i, q, m := s.io.msg.sn % |s.slots|, s.requests[t], s.io.msg;
            s' == s.(requests := s.requests[t := q.(got := q.got + [m])],
                     slots := s.slots[i := s.slots[i].(holder := Nobody, status := Done)],
                     buffers := s.buffers[s.slots[i].rep := Buffer(s, s.slots[i].rep) + m.payload],
                     io := Resting)
  {
    hide RequestAfter, SlotAfter, CallerEnabled, Leads;
    var s1 := Apply(s, IoPush);
    var s2 := Apply(s1, IoDone);
    s' := Apply(s2, IoUnlock);
    LeadsAll([s, s1, s2, s'], [IoPush, IoDone, IoUnlock]);
  }

  /** A response for the request in a slot is appended to that request's buffer, and the slot is DONE. */
  lemma {:induction false} ResponseIsDelivered(s: State, t: nat, m: Msg) returns (s': State)
    requires |s.slots| > 0 && t < |s.requests| && s.io == Resting && m.sn < TICKET_WRAP && Genuine(s, m)
    requires s.slots[m.sn % |s.slots|] == Slot(Nobody, Busy, m.sn, s.requests[t].rep, Some(t))
    ensures Leads(s, [Receive(m), IoLock, IoMatch, IoPush, IoDone, IoUnlock], s')
    ensures var q := s.requests[t];
            s' == s.(requests := s.requests[t := q.(got := q.got + [m])],
                     slots := s.slots[m.sn % |s.slots| := Slot(Nobody, Done, m.sn, q.rep, Some(t))],
                     buffers := s.buffers[q.rep := Buffer(s, q.rep) + m.payload])
  {
    hide Leads;
    var u := ResponseIsMatched(s, m);
    s' := MatchedIsAppended(u, t);
    LeadsJoin(s, [Receive(m), IoLock, IoMatch], u, [IoPush, IoDone, IoUnlock], s');
    assert [Receive(m), IoLock, IoMatch] + [IoPush, IoDone, IoUnlock] == [Receive(m), IoLock, IoMatch, IoPush, IoDone, IoUnlock];
  }

  lemma {:induction false} LeadsAll(ss: seq<State>, a: seq<Step>)
    requires |ss| == |a| + 1 && forall i :: 0 <= i < |a| ==> Steps(ss[i], a[i], ss[i + 1])
    ensures Leads(ss[0], a, ss[|a|])
  {
    hide Steps;
    assert a[|a|..] == [] && Leads(ss[|a|], a[|a|..], ss[|a|]);
    for i := |a| downto 0
      invariant Leads(ss[i], a[i..], ss[|a|])
    {
      LeadsFirst(ss[i], a[i], a[i + 1..], ss[i + 1], ss[|a|]);
      assert a[i..] == [a[i]] + a[i + 1..];
    }
    assert a[0..] == a;
  }

  /** A request at its loop test whose slot is DONE returns OK, with its one response. */
  lemma {:induction false} DoneReturnsOk(s: State, t: nat) returns (s': State)
    requires Inv(s) && t < |s.requests| && s.requests[t].pc == Testing && s.slots[SlotOf(s, t)].status == Done
    ensures Leads(s, [Test(t), StoreIdle(t), Unlock(t)], s')
    ensures s' == s.(requests := s.requests[t := s.requests[t].(pc := Returned(Ok))],
                     slots := s.slots[SlotOf(s, t) := s.slots[SlotOf(s, t)].(holder := Nobody, status := Idle, owner := None)])
    ensures |s'.requests[t].got| == 1
  {
    assert RequestOk(s, t);
    hide Inv, RequestOk;
    s' := AnsweredReturnsOk(s, t);
  }

  lemma {:induction false} AnsweredReturnsOk(s: State, t: nat) returns (s': State)
    requires |s.slots| > 0 && t < |s.requests| && s.requests[t].pc == Testing && s.slots[SlotOf(s, t)].status == Done
    ensures Leads(s, [Test(t), StoreIdle(t), Unlock(t)], s')
    ensures s' == s.(requests := s.requests[t := s.requests[t].(pc := Returned(Ok))],
                     slots := s.slots[SlotOf(s, t) := s.slots[SlotOf(s, t)].(holder := Nobody, status := Idle, owner := None)])
  {
    var v0 := LocalOf(s, t);
    var v1 := LocalAfter(Test(t), t, v0);
    var v2 := LocalAfter(StoreIdle(t), t, v1);
    var v3 := LocalAfter(Unlock(t), t, v2);
    OwnSteps(s, t, [v0, v1, v2, v3], [Test(t), StoreIdle(t), Unlock(t)]);
    s' := With(s, t, v3);
  }

  /** A waiting request that is woken takes the mutex back and tests again. */
  lemma {:induction false} WokenTestsAgain(s: State, t: nat, now: Time) returns (s': State)
    requires |s.slots| > 0 && t < |s.requests| && s.requests[t].pc == Waiting && s.slots[SlotOf(s, t)].holder == Nobody
    ensures Leads(s, [EndWait(t, Woken, now), Reacquire(t), CheckWait(t)], s')
    ensures s' == s.(requests := s.requests[t := s.requests[t].(pc := Testing)],
                     slots := s.slots[SlotOf(s, t) := s.slots[SlotOf(s, t)].(holder := Caller(t))])
  {
    var v0 := LocalOf(s, t);
    var v1 := LocalAfter(EndWait(t, Woken, now), t, v0);
    var v2 := LocalAfter(Reacquire(t), t, v1);
    var v3 := LocalAfter(CheckWait(t), t, v2);
    OwnSteps(s, t, [v0, v1, v2, v3], [EndWait(t, Woken, now), Reacquire(t), CheckWait(t)]);
    s' := With(s, t, v3);
  }

  /** A waiting request whose deadline has passed returns the timeout and gives its slot free. */
  lemma {:induction false} DeadlineReturnsTimeout(s: State, t: nat, now: Time) returns (s': State)
    requires |s.slots| > 0 && t < |s.requests| && s.requests[t].pc == Waiting && s.slots[SlotOf(s, t)].holder == Nobody
    requires var q := s.requests[t];
             (now.sec - q.sentAt.sec) * 1_000_000_000 + (now.nsec - q.sentAt.nsec)
             >= (if q.timeout <= 10000 then q.timeout else 10000) * 1_000_000
    ensures Leads(s, [EndWait(t, TimedOut, now), Reacquire(t), CheckWait(t), StoreIdle(t), Unlock(t)], s')
    ensures s' == s.(requests := s.requests[t := s.requests[t].(pc := Returned(ETimeout))],
                     slots := s.slots[SlotOf(s, t) := s.slots[SlotOf(s, t)].(status := Idle, owner := None)])
  {
    DeadlineInNumbers(s.requests[t].sentAt, s.requests[t].timeout);
    var v0 := LocalOf(s, t);
    var v1 := LocalAfter(EndWait(t, TimedOut, now), t, v0);
    var v2 := LocalAfter(Reacquire(t), t, v1);
    var v3 := LocalAfter(CheckWait(t), t, v2);
    var v4 := LocalAfter(StoreIdle(t), t, v3);
    var v5 := LocalAfter(Unlock(t), t, v4);
    OwnSteps(s, t, [v0, v1, v2, v3, v4, v5],
             [EndWait(t, TimedOut, now), Reacquire(t), CheckWait(t), StoreIdle(t), Unlock(t)]);
    s' := With(s, t, v5);
  }

  // ------------------------------------------------------------------ one whole request

  /** From a free slot to the wait. */
  lemma {:induction false} FreeSlotWaits(s: State, t: nat, now: Time) returns (s': State)
    requires |s.slots| > 0 && t < |s.requests| && s.requests[t].pc == Ticketed
    requires s.slots[SlotOf(s, t)].holder == Nobody && s.slots[SlotOf(s, t)].status == Idle
    requires 0 <= now.nsec < 1_000_000_000
    requires now.nsec + (if s.requests[t].timeout <= 10000 then s.requests[t].timeout else 10000) * 1_000_000 < 2_000_000_000
    ensures Leads(s, [TryLock(t), Swap(t)] + [Clear(t), StoreSeq(t), StoreRep(t), Send(t, now), Test(t)], s')
    ensures var q := s.requests[t];
            s' == s.(requests := s.requests[t := q.(pc := Waiting, sentAt := now)],
                     slots := s.slots[SlotOf(s, t) := Slot(Nobody, Busy, q.sn, q.rep, Some(t))],
                     buffers := s.buffers[q.rep := []], sent := s.sent + {t})
  {
    hide Leads;
    var u := FreeSlotIsAcquired(s, t);
    s' := OwnerSendsAndWaits(u, t, now);
    LeadsJoin(s, [TryLock(t), Swap(t)], u, [Clear(t), StoreSeq(t), StoreRep(t), Send(t, now), Test(t)], s');
  }

  /** From the wait, with the slot DONE, to OK. */
  lemma {:induction false} WokenReturnsOk(s: State, t: nat, now: Time) returns (s': State)
    requires |s.slots| > 0 && t < |s.requests| && s.requests[t].pc == Waiting
    requires s.slots[SlotOf(s, t)].holder == Nobody && s.slots[SlotOf(s, t)].status == Done
    ensures Leads(s, [EndWait(t, Woken, now), Reacquire(t), CheckWait(t)] + [Test(t), StoreIdle(t), Unlock(t)], s')
    ensures s' == s.(requests := s.requests[t := s.requests[t].(pc := Returned(Ok))],
                     slots := s.slots[SlotOf(s, t) := s.slots[SlotOf(s, t)].(status := Idle, owner := None)])
  {
    hide Leads;
    var u := WokenTestsAgain(s, t, now);
    s' := AnsweredReturnsOk(u, t);
    LeadsJoin(s, [EndWait(t, Woken, now), Reacquire(t), CheckWait(t)], u, [Test(t), StoreIdle(t), Unlock(t)], s');
  }

  function WholeRequest(t: nat, rep: nat, timeout: nat, now: Time, m: Msg): seq<Step> {
    [TakeTicket(rep, timeout)]
    + ([TryLock(t), Swap(t)] + [Clear(t), StoreSeq(t), StoreRep(t), Send(t, now), Test(t)])
    + [Receive(m), IoLock, IoMatch, IoPush, IoDone, IoUnlock]
    + ([EndWait(t, Woken, now), Reacquire(t), CheckWait(t)] + [Test(t), StoreIdle(t), Unlock(t)])
  }

  /**
   A request that nobody disturbs. In every reachable state in which the slot of the next ticket is free and
   the IO thread rests, a request with a deadline that the wait accepts gets its response: it returns OK, its
   buffer holds exactly the payload, its slot is free again, and nothing of any other request has changed.
   */
  lemma {:induction false} RequestIsAnswered(s: State, rep: nat, timeout: nat, now: Time, payload: Bytes)
    returns (s': State)
    requires Inv(s) && s.io == Resting
    requires s.slots[s.counter % |s.slots|].holder == Nobody && s.slots[s.counter % |s.slots|].status == Idle
    requires 0 <= now.nsec < 1_000_000_000
    requires now.nsec + (if timeout <= 10000 then timeout else 10000) * 1_000_000 < 2_000_000_000
    ensures var t, m := |s.requests|, Msg(s.counter, payload, Some(|s.requests|));
            && Leads(s, WholeRequest(t, rep, timeout, now, m), s')
            && s' == s.(counter := (t + 1) % 0x1_0000_0000,
                        requests := s.requests + [Request(t % 0x1_0000_0000, rep, timeout, now, Returned(Ok), [m])],
                        slots := s.slots[s.counter % |s.slots| := Slot(Nobody, Idle, s.counter, rep, None)],
                        buffers := s.buffers[rep := payload], sent := s.sent + {t})
  {
    hide Leads, RequestOk, SlotOk, IoOk;
    var t, m := |s.requests|, Msg(s.counter, payload, Some(|s.requests|));
    CounterNext(t);
    var s1 := Apply(s, TakeTicket(rep, timeout));
    LeadsAll([s, s1], [TakeTicket(rep, timeout)]);
    var s2 := FreeSlotWaits(s1, t, now);
    var s3 := ResponseIsDelivered(s2, t, m);
    s' := WokenReturnsOk(s3, t, now);
    var a := [TryLock(t), Swap(t)] + [Clear(t), StoreSeq(t), StoreRep(t), Send(t, now), Test(t)];
    var b := [Receive(m), IoLock, IoMatch, IoPush, IoDone, IoUnlock];
    var c := [EndWait(t, Woken, now), Reacquire(t), CheckWait(t)] + [Test(t), StoreIdle(t), Unlock(t)];
    LeadsJoin(s, [TakeTicket(rep, timeout)], s1, a, s2);
    LeadsJoin(s, [TakeTicket(rep, timeout)] + a, s2, b, s3);
    LeadsJoin(s, [TakeTicket(rep, timeout)] + a + b, s3, c, s');
    assert Buffer(s2, rep) + payload == payload;
    assert s'.buffers == s.buffers[rep := payload];
    assert s'.requests[t] == Request(s.counter, rep, timeout, now, Returned(Ok), [] + [m]);
    assert s'.requests == s.requests + [s'.requests[t]];
    assert s.counter == t % 0x1_0000_0000 && [] + [m] == [m];
    assert s'.slots == s.slots[s.counter % |s.slots| := Slot(Nobody, Idle, s.counter, rep, None)];
  }
}
