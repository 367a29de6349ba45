/**
 The broker as its clients see it: one ordered log of subscriptions, without duplicates.
 A topic's sessions and a session's topics are the two projections of this log.
 */
module BusSpec {
  import opened Messages
  import opened Sequences

  type Subs<S> = seq<(S, Key)>

  /** The sessions of a topic, in the order in which they subscribed. */
  function SessionsOf<S>(subs: Subs<S>, k: Key): seq<S> {
    if subs == [] then []
    else SessionsOf(subs[..|subs| - 1], k) + if subs[|subs| - 1].1 == k then [subs[|subs| - 1].0] else []
  }

  /** The topics of a session, in the order in which it subscribed to them. */
  function TopicsOf<S(==)>(subs: Subs<S>, s: S): seq<Key> {
    if subs == [] then []
    else TopicsOf(subs[..|subs| - 1], s) + if subs[|subs| - 1].0 == s then [subs[|subs| - 1].1] else []
  }

  function AddSub<S(==)>(subs: Subs<S>, s: S, k: Key): Subs<S> {
    if (s, k) in subs then subs else subs + [(s, k)]
  }

  function RemoveSub<S(==)>(subs: Subs<S>, s: S, k: Key): Subs<S> {
    Without(subs, (s, k))
  }

  function DropSession<S(==)>(subs: Subs<S>, s: S): Subs<S> {
    if subs == [] then []
    else DropSession(subs[..|subs| - 1], s) + if subs[|subs| - 1].0 == s then [] else [subs[|subs| - 1]]
  }

  // ------------------------------------------------------------------ projections

  lemma {:induction false} ProjectionMembers<S>(subs: Subs<S>, s: S, k: Key)
    ensures s in SessionsOf(subs, k) <==> (s, k) in subs
    ensures k in TopicsOf(subs, s) <==> (s, k) in subs
  {
    if subs != [] {
      ProjectionMembers(subs[..|subs| - 1], s, k);
      InInit(subs, (s, k));
    }
  }

  lemma {:induction false} DropMembers<S>(subs: Subs<S>, s: S, x: S, k: Key)
    ensures (x, k) in DropSession(subs, s) <==> (x, k) in subs && x != s
  {
    if subs != [] {
      DropMembers(subs[..|subs| - 1], s, x, k);
      InInit(subs, (x, k));
    }
  }

  lemma {:induction false} ProjectionsNoDup<S>(subs: Subs<S>, s: S, k: Key)
    requires NoDup(subs)
    ensures NoDup(SessionsOf(subs, k)) && NoDup(TopicsOf(subs, s))
  {
    if subs != [] {
      var init, last := subs[..|subs| - 1], subs[|subs| - 1];
      ProjectionsNoDup(init, s, k);
      if last.1 == k {
        ProjectionMembers(init, last.0, k);
        NoDupAppend(SessionsOf(init, k), last.0);
      }
      if last.0 == s {
        ProjectionMembers(init, s, last.1);
        NoDupAppend(TopicsOf(init, s), last.1);
      }
    }
  }

  lemma {:induction false} ProjectionSnoc<S>(subs: Subs<S>, p: (S, Key), s: S, k: Key)
    ensures SessionsOf(subs + [p], k) == if p.1 == k then SessionsOf(subs, k) + [p.0] else SessionsOf(subs, k)
    ensures TopicsOf(subs + [p], s) == if p.0 == s then TopicsOf(subs, s) + [p.1] else TopicsOf(subs, s)
    ensures DropSession(subs + [p], s) == if p.0 == s then DropSession(subs, s) else DropSession(subs, s) + [p]
  {
    assert (subs + [p])[..|subs|] == subs;
  }

  /** Removing a subscription removes it from both projections and leaves all others alone. */
  lemma {:induction false} RemoveSubProjections<S>(subs: Subs<S>, s: S, k: Key, x: S, j: Key)
    ensures SessionsOf(RemoveSub(subs, s, k), j) == if j == k then Without(SessionsOf(subs, j), s) else SessionsOf(subs, j)
    ensures TopicsOf(RemoveSub(subs, s, k), x) == if x == s then Without(TopicsOf(subs, x), k) else TopicsOf(subs, x)
  {
    if subs != [] {
      var init, last := subs[..|subs| - 1], subs[|subs| - 1];
      assert subs == init + [last];
      RemoveSubProjections(init, s, k, x, j);
      WithoutSnoc(init, (s, k), last);
      ProjectionSnoc(init, last, x, j);
      ProjectionSnoc(RemoveSub(init, s, k), last, x, j);
      WithoutSnoc(SessionsOf(init, j), s, last.0);
      WithoutSnoc(TopicsOf(init, x), k, last.1);
      hide SessionsOf, TopicsOf, Without;
    }
  }

  /** Dropping a session leaves every other session's topics alone, in order. */
  lemma {:induction false} DropProjections<S>(subs: Subs<S>, s: S, x: S, k: Key)
    ensures TopicsOf(DropSession(subs, s), x) == if x == s then [] else TopicsOf(subs, x)
    ensures SessionsOf(DropSession(subs, s), k) == Without(SessionsOf(subs, k), s)
  {
    if subs != [] {
      var init, last := subs[..|subs| - 1], subs[|subs| - 1];
      assert subs == init + [last];
      DropProjections(init, s, x, k);
      ProjectionSnoc(init, last, x, k);
      ProjectionSnoc(init, last, s, k);
      ProjectionSnoc(DropSession(init, s), last, x, k);
      WithoutSnoc(SessionsOf(init, k), s, last.0);
      hide SessionsOf, TopicsOf, Without, DropSession;
    }
  }

  // ------------------------------------------------------------------ the broker as a state machine

  /** Subscriptions, the node id of every live session, and everything written to sessions. */
  datatype Bus<S> = Bus(subs: Subs<S>, ids: map<S, bv16>, log: seq<(S, Message)>)

  datatype Event<S> = Accept(s: S) | Read(s: S, m: Message, length: int) | Close(s: S)

  predicate Addressed<S>(ids: map<S, bv16>, x: S, to: bv16) {
    to == TO_EVERYONE || (x in ids && ids[x] == to)
  }

  /** To whom a message goes: the subscribers of its key, in subscription order, that it is addressed to. */
  function Targets<S>(subs: Subs<S>, ids: map<S, bv16>, k: Key, to: bv16): seq<S> {
    if subs == [] then []
    else
      var last := subs[|subs| - 1];
      Targets(subs[..|subs| - 1], ids, k, to) + if last.1 == k && Addressed(ids, last.0, to) then [last.0] else []
  }

  function Copies<S>(xs: seq<S>, m: Message): seq<(S, Message)> {
    seq(|xs|, i requires 0 <= i < |xs| => (xs[i], m))
  }

  function Next<S>(b: Bus<S>, e: Event<S>): Bus<S> {
    match e
    case Accept(s) => b.(ids := b.ids[s := 0])
    case Close(s) => b.(subs := DropSession(b.subs, s), ids := b.ids - {s})
    case Read(s, m, length) =>
      if !HeadValid(m, length) then b
      else if m.to != TO_BROKER then b.(log := b.log + Copies(Targets(b.subs, b.ids, KeyOf(m), m.to), m))
      else if TakenAsSub(m.flags) then b.(subs := AddSub(b.subs, s, SubscribedKey(m)))
      else if m.flags == REGISTER then b.(ids := b.ids[s := m.from])
      else b
  }

  /** A new connection is not one that is still open; only open connections are read or closed. */
  predicate Possible<S>(b: Bus<S>, e: Event<S>) {
    if e.Accept? then e.s !in b.ids else e.s in b.ids
  }

  ghost predicate Good<S>(b: Bus<S>) {
    NoDup(b.subs) && forall p :: p in b.subs ==> p.0 in b.ids
  }

  lemma {:induction false} DropNoDup<S>(subs: Subs<S>, s: S)
    requires NoDup(subs)
    ensures NoDup(DropSession(subs, s))
  {
    if subs != [] {
      var init, last := subs[..|subs| - 1], subs[|subs| - 1];
      DropNoDup(init, s);
      if last.0 != s {
        DropMembers(init, s, last.0, last.1);
        NoDupAppend(DropSession(init, s), last);
      }
    }
  }

  lemma {:induction false} NextGood<S>(b: Bus<S>, e: Event<S>)
    requires Good(b) && Possible(b, e)
    ensures Good(Next(b, e))
  {
    if e.Close? {
      DropNoDup(b.subs, e.s);
      forall p | p in DropSession(b.subs, e.s) ensures p.0 in Next(b, e).ids {
        DropMembers(b.subs, e.s, p.0, p.1);
      }
    }
  }

  /** After a close the session occurs nowhere, and all others keep their topics. */
  lemma {:induction false} CloseForgetsOnlyOne<S>(b: Bus<S>, s: S, x: S, k: Key)
    requires Good(b) && s in b.ids
    ensures var b' := Next(b, Close(s));
            && s !in b'.ids && (s, k) !in b'.subs
            && (x != s ==> TopicsOf(b'.subs, x) == TopicsOf(b.subs, x))
            && SessionsOf(b'.subs, k) == Without(SessionsOf(b.subs, k), s)
  {
    DropMembers(b.subs, s, s, k);
    DropProjections(b.subs, s, x, k);
  }

  // ------------------------------------------------------------------ forwarding

  lemma {:induction false} TargetsMembers<S>(subs: Subs<S>, ids: map<S, bv16>, k: Key, to: bv16, x: S)
    ensures x in Targets(subs, ids, k, to) <==> (x, k) in subs && Addressed(ids, x, to)
  {
    if subs != [] {
      TargetsMembers(subs[..|subs| - 1], ids, k, to, x);
      InInit(subs, (x, k));
    }
  }

  lemma {:induction false} TargetsNoDup<S>(subs: Subs<S>, ids: map<S, bv16>, k: Key, to: bv16)
    requires NoDup(subs)
    ensures NoDup(Targets(subs, ids, k, to))
  {
    if subs != [] {
      var init, last := subs[..|subs| - 1], subs[|subs| - 1];
      TargetsNoDup(init, ids, k, to);
      if last.1 == k && Addressed(ids, last.0, to) {
        TargetsMembers(init, ids, k, to, last.0);
        NoDupAppend(Targets(init, ids, k, to), last.0);
      }
    }
  }

  lemma {:induction false} TargetsOrdered<S>(subs: Subs<S>, ids: map<S, bv16>, k: Key, to: bv16, i: nat, j: nat)
    returns (p: nat, q: nat)
    requires i < j < |Targets(subs, ids, k, to)|
    ensures p < q < |subs|
    ensures subs[p] == (Targets(subs, ids, k, to)[i], k) && subs[q] == (Targets(subs, ids, k, to)[j], k)
  {
    var init := subs[..|subs| - 1];
    if j < |Targets(init, ids, k, to)| {
      p, q := TargetsOrdered(init, ids, k, to, i, j);
    } else {
      var x := Targets(init, ids, k, to)[i];
      assert x in Targets(init, ids, k, to);
      TargetsMembers(init, ids, k, to, x);
      p :| 0 <= p < |init| && init[p] == (x, k);
      q := |subs| - 1;
    }
  }

  ghost predicate SubscribedBefore<S>(subs: Subs<S>, x: S, y: S, k: Key) {
    exists p, q :: 0 <= p < q < |subs| && subs[p] == (x, k) && subs[q] == (y, k)
  }

  /** Who gets a copy: the subscribers of its version, flags and topic, all of them (0xFFFF) or those with the id. */
  lemma {:induction false} CopiesExact<S>(subs: Subs<S>, ids: map<S, bv16>, m: Message, p: (S, Message))
    ensures p in Copies(Targets(subs, ids, KeyOf(m), m.to), m)
       <==> && p.1 == m && (p.0, TopicKey(m.version, m.flags, m.topic)) in subs
            && (m.to == 0xFFFF || (p.0 in ids && ids[p.0] == m.to))
  {
    TargetsMembers(subs, ids, KeyOf(m), m.to, p.0);
    var ts := Targets(subs, ids, KeyOf(m), m.to);
    if p.0 in ts && p.1 == m {
      var i :| 0 <= i < |ts| && ts[i] == p.0;
      assert Copies(ts, m)[i] == p;
    }
  }

  lemma {:induction false} CopiesNoDup<S>(subs: Subs<S>, ids: map<S, bv16>, m: Message)
    requires NoDup(subs)
    ensures NoDup(Copies(Targets(subs, ids, KeyOf(m), m.to), m))
  {
    TargetsNoDup(subs, ids, KeyOf(m), m.to);
  }

  /** What an event adds to the log. */
  function Written<S>(b: Bus<S>, e: Event<S>): (w: seq<(S, Message)>)
    ensures Next(b, e).log == b.log + w
  {
    Next(b, e).log[|b.log|..]
  }

  /**
   Forwarding. A message with magic 0x55AA, a payload of at most 67108832 bytes and a receiver other than the
   broker (0xFFFE) is written once to every session that is subscribed to its version,
   flags and topic and whose node id it names, or to all of these if it is for everyone (0xFFFF); to nobody
   else, unchanged, and in the order of the subscriptions. Nothing else happens.
   */
  lemma {:induction false} ForwardingIsExact<S>(b: Bus<S>, s: S, m: Message, x: S)
    requires Good(b) && s in b.ids
    requires m.magic == 0x55AA && m.payloadSize <= 67108832 && m.to != 0xFFFE
    ensures var e := Read(s, m, 32 + m.payloadSize);
            var w := Written(b, e);
            && Next(b, e).subs == b.subs && Next(b, e).ids == b.ids
            && NoDup(w)
            && (forall p :: p in w ==> p.1 == m)
            && ((x, m) in w <==>
                  (x, TopicKey(m.version, m.flags, m.topic)) in b.subs && (m.to == 0xFFFF || b.ids[x] == m.to))
            && (forall i, j :: 0 <= i < j < |w| ==> SubscribedBefore(b.subs, w[i].0, w[j].0, KeyOf(m)))
  {
    var ts, e := Targets(b.subs, b.ids, KeyOf(m), m.to), Read(s, m, 32 + m.payloadSize);
    assert Written(b, e) == Copies(ts, m);
    CopiesExact(b.subs, b.ids, m, (x, m));
    CopiesNoDup(b.subs, b.ids, m);
    forall i, j | 0 <= i < j < |ts|
      ensures SubscribedBefore(b.subs, ts[i], ts[j], KeyOf(m))
    {
      var p, q := TargetsOrdered(b.subs, b.ids, KeyOf(m), m.to, i, j);
    }
  }

  /** A session subscribed to `wanted` gets exactly the messages for one of these versions, flags and topics. */
  lemma {:induction false} ForwardedByContent<S>(b: Bus<S>, s: S, m: Message, length: int, x: S, wanted: seq<(bv8, bv8, bv16)>)
    requires forall w :: w in wanted ==> (x, TopicKey(w.0, w.1, w.2)) in b.subs
    requires forall k :: (x, k) in b.subs ==> exists w :: w in wanted && k == TopicKey(w.0, w.1, w.2)
    ensures (x, m) in Written(b, Read(s, m, length))
       <==> && m.magic == 0x55AA && length == 32 + m.payloadSize && m.payloadSize <= 67108832 && m.to != 0xFFFE
            && (m.version, m.flags, m.topic) in wanted
            && (m.to == 0xFFFF || (x in b.ids && b.ids[x] == m.to))
  {
    ValidIff(m, length);
    var ts := Targets(b.subs, b.ids, KeyOf(m), m.to);
    CopiesExact(b.subs, b.ids, m, (x, m));
    assert Written(b, Read(s, m, length)) == if HeadValid(m, length) && m.to != TO_BROKER then Copies(ts, m) else [];
    hide TopicKey, Written, Next, Copies, Targets, HeadValid;
    if (x, KeyOf(m)) in b.subs {
      var w :| w in wanted && KeyOf(m) == TopicKey(w.0, w.1, w.2);
      TopicKeyInjective(w.0, w.1, w.2, m.version, m.flags, m.topic);
    }
  }

  // ------------------------------------------------------------------ runs

  /** The bus after a history of events, from a broker without connections. */
  function After<S>(events: seq<Event<S>>): Bus<S> {
    if events == [] then Bus([], map[], []) else Next(After(events[..|events| - 1]), events[|events| - 1])
  }

  ghost predicate PossibleRun<S>(events: seq<Event<S>>) {
    forall i :: 0 <= i < |events| ==> Possible(After(events[..i]), events[i])
  }

  /** A valid message to the broker that came in on the connection of `s`. */
  predicate Told<S(==)>(e: Event<S>, s: S) {
    && e.Read? && e.s == s && e.m.to == 0xFFFE
    && e.m.magic == 0x55AA && e.length == 32 + e.m.payloadSize && e.m.payloadSize <= 67108832
  }

  /** Subscribing: the bit 0x20 is set; the key has version 0, flags 0x10 and the low bits, and the topic. */
  predicate AsksFor<S(==)>(e: Event<S>, s: S, k: Key) {
    Told(e, s) && e.m.flags & 0x20 != 0 && k == TopicKey(0, 0x10 | (e.m.flags & 0x0F), e.m.topic)
  }

  predicate Registers<S(==)>(e: Event<S>, s: S) {
    Told(e, s) && e.m.flags == 0x00
  }

  /** The event at `i` belongs to the present connection of `s`: there was no close since. */
  ghost predicate OpenSince<S>(events: seq<Event<S>>, s: S, i: nat) {
    forall j :: i < j < |events| ==> events[j] != Close(s)
  }

  ghost predicate Connected<S>(events: seq<Event<S>>, s: S) {
    exists i: nat :: i < |events| && events[i] == Accept(s) && OpenSince(events, s, i)
  }

  ghost predicate Asked<S>(events: seq<Event<S>>, s: S, k: Key) {
    exists i: nat :: i < |events| && AsksFor(events[i], s, k) && OpenSince(events, s, i)
  }

  /** The event gives the session of `s` the id `id`: a REGISTER its sender, a new connection 0. */
  predicate Gives<S(==)>(e: Event<S>, s: S, id: bv16) {
    if e == Accept(s) then id == 0 else Registers(e, s) && e.m.from == id
  }

  /** No event after the one at `i` gives the session of `s` another id or closes it. */
  ghost predicate LastFor<S>(events: seq<Event<S>>, s: S, i: nat) {
    OpenSince(events, s, i) && forall j :: i < j < |events| ==> events[j] != Accept(s) && !Registers(events[j], s)
  }

  /** `id` is what the last REGISTER on the present connection said, or 0 if there was none. */
  ghost predicate LastRegistered<S>(events: seq<Event<S>>, s: S, id: bv16) {
    exists i: nat :: i < |events| && Gives(events[i], s, id) && LastFor(events, s, i)
  }

  lemma {:induction false} LastRegisteredUnique<S>(events: seq<Event<S>>, s: S, a: bv16, b: bv16)
    requires LastRegistered(events, s, a) && LastRegistered(events, s, b)
    ensures a == b
  {
    var i: nat :| i < |events| && Gives(events[i], s, a) && LastFor(events, s, i);
    var j: nat :| j < |events| && Gives(events[j], s, b) && LastFor(events, s, j);
    assert i == j;
  }

  lemma {:induction false} ConnectedSnoc<S>(init: seq<Event<S>>, e: Event<S>, s: S)
    ensures Connected(init + [e], s) <==> e == Accept(s) || (Connected(init, s) && e != Close(s))
  {
    var all := init + [e];
    if Connected(all, s) {
      var i: nat :| i < |all| && all[i] == Accept(s) && OpenSince(all, s, i);
      if i < |init| {
        assert all[|init|] != Close(s);
        assert OpenSince(init, s, i) by {
          assert forall j :: i < j < |init| ==> all[j] == init[j];
        }
      }
    }
    if e == Accept(s) {
      assert all[|init|] == e && OpenSince(all, s, |init|);
    } else if Connected(init, s) && e != Close(s) {
      var i: nat :| i < |init| && init[i] == Accept(s) && OpenSince(init, s, i);
      assert all[i] == init[i] && OpenSince(all, s, i);
    }
  }

  lemma {:induction false} AskedSnoc<S>(init: seq<Event<S>>, e: Event<S>, s: S, k: Key)
    ensures Asked(init + [e], s, k) <==> AsksFor(e, s, k) || (Asked(init, s, k) && e != Close(s))
  {
    hide AsksFor;
    var all := init + [e];
    if Asked(all, s, k) {
      var i: nat :| i < |all| && AsksFor(all[i], s, k) && OpenSince(all, s, i);
      if i < |init| {
        assert all[|init|] != Close(s);
        assert OpenSince(init, s, i) by {
          assert forall j :: i < j < |init| ==> all[j] == init[j];
        }
      }
    }
    if AsksFor(e, s, k) {
      assert all[|init|] == e && OpenSince(all, s, |init|);
    } else if Asked(init, s, k) && e != Close(s) {
      var i: nat :| i < |init| && AsksFor(init[i], s, k) && OpenSince(init, s, i);
      assert all[i] == init[i] && OpenSince(all, s, i);
    }
  }

  lemma {:induction false} RegisteredSnoc<S>(init: seq<Event<S>>, e: Event<S>, s: S, id: bv16)
    requires Gives(e, s, id) || (LastRegistered(init, s, id) && e != Close(s) && e != Accept(s) && !Registers(e, s))
    ensures LastRegistered(init + [e], s, id)
  {
    hide Registers;
    var all := init + [e];
    if Gives(e, s, id) {
      assert all[|init|] == e && LastFor(all, s, |init|);
    } else {
      var i: nat :| i < |init| && Gives(init[i], s, id) && LastFor(init, s, i);
      assert all[i] == init[i];
      assert LastFor(all, s, i) by {
        assert forall j :: i < j < |init| ==> all[j] == init[j];
        assert all[|init|] == e;
      }
    }
  }

  /** One event, in the terms of the history. */
  lemma {:induction false} NextInNumbers<S>(b: Bus<S>, e: Event<S>, s: S, k: Key)
    requires Good(b) && Possible(b, e)
    ensures var b' := Next(b, e);
            && (s in b'.ids <==> e == Accept(s) || (s in b.ids && e != Close(s)))
            && ((s, k) in b'.subs <==> AsksFor(e, s, k) || ((s, k) in b.subs && e != Close(s)))
            && (s in b'.ids && !Gives(e, s, b'.ids[s]) ==>
                  s in b.ids && b'.ids[s] == b.ids[s] && e != Accept(s) && !Registers(e, s))
  {
    if e.Close? {
      DropMembers(b.subs, e.s, s, k);
    } else if e.Read? {
      ValidIff(e.m, e.length);
    }
  }

  lemma {:induction false} RunPrefix<S>(events: seq<Event<S>>)
    requires PossibleRun(events) && events != []
    ensures PossibleRun(events[..|events| - 1]) && Possible(After(events[..|events| - 1]), events[|events| - 1])
  {
    var init := events[..|events| - 1];
    forall i | 0 <= i < |init| ensures Possible(After(init[..i]), init[i]) {
      assert init[..i] == events[..i];
    }
  }

  /**
   What the broker knows, from its history alone. A session is known from its accept to its close; it has
   a subscription exactly if it asked for it on its present connection; and its node id
   is the sender of its last REGISTER on that connection, or 0.
   */
  lemma {:induction false} KnownFromHistory<S>(events: seq<Event<S>>, s: S, k: Key)
    requires PossibleRun(events)
    ensures Good(After(events))
    ensures s in After(events).ids <==> Connected(events, s)
    ensures (s, k) in After(events).subs <==> Asked(events, s, k)
    ensures s in After(events).ids ==> LastRegistered(events, s, After(events).ids[s])
  {
    hide Next, Possible, Gives, AsksFor, Registers;
    if events != [] {
      var init, e := events[..|events| - 1], events[|events| - 1];
      RunPrefix(events);
      KnownFromHistory(init, s, k);
      assert events == init + [e];
      NextGood(After(init), e);
      NextInNumbers(After(init), e, s, k);
      ConnectedSnoc(init, e, s);
      AskedSnoc(init, e, s, k);
      if s in After(events).ids {
        RegisteredSnoc(init, e, s, After(events).ids[s]);
      }
    }
  }

  /**
   Routing, from the history alone: in every run, a message that is not for the broker goes to exactly the
   sessions that asked for its version, flags and topic on their present connection and
   that it is addressed to: everyone, or those whose last REGISTER there named its receiver.
   */
  lemma {:induction false} ForwardedByHistory<S>(events: seq<Event<S>>, s: S, m: Message, x: S)
    requires PossibleRun(events) && Connected(events, s)
    requires m.magic == 0x55AA && m.payloadSize <= 67108832 && m.to != 0xFFFE
    ensures (x, m) in Written(After(events), Read(s, m, 32 + m.payloadSize))
       <==> Asked(events, x, TopicKey(m.version, m.flags, m.topic)) && (m.to == 0xFFFF || LastRegistered(events, x, m.to))
  {
    hide Next, After, Written, PossibleRun, Connected, Asked, LastRegistered, TopicKey;
    var b := After(events);
    KnownFromHistory(events, s, KeyOf(m));
    KnownFromHistory(events, x, KeyOf(m));
    ForwardingIsExact(b, s, m, x);
    if (x, KeyOf(m)) in b.subs && LastRegistered(events, x, m.to) {
      LastRegisteredUnique(events, x, m.to, b.ids[x]);
    }
  }

  /** As dispatched, an UNSUB message never removes a subscription: it makes one. */
  lemma {:induction false} UnsubMessageSubscribes<S>(b: Bus<S>, s: S, m: Message, length: int)
    requires HeadValid(m, length) && m.to == TO_BROKER && m.flags & 0xF0 == UNSUB
    ensures Next(b, Read(s, m, length)) == b.(subs := AddSub(b.subs, s, SubscribedKey(m)))
    ensures (s, SubscribedKey(m)) in Next(b, Read(s, m, length)).subs
  {
    assert SUB & m.flags == SUB by {
      assert m.flags & 0xF0 == UNSUB;
      assert SUB & m.flags == SUB & (m.flags & 0xF0);
    }
  }
}
