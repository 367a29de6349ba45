/**
 The broker: a global map from topic keys to lists of sessions, and in every session the list
 of its own topic keys, both changed in place.
 */
module Broker {
  import opened Messages
  import opened BusSpec
  import opened Sequences

  class Session {
    var topics: seq<Key>
    var nodeId: bv16

    constructor ()
      ensures topics == [] && nodeId == 0
    {
      topics, nodeId := [], 0;
    }
  }

  /** The topic map is the topic projection of the log; a topic without sessions is not in it. */
  ghost predicate IndexOk(index: map<Key, seq<Session>>, subs: Subs<Session>) {
    forall k: Key :: TopicOk(index, subs, k)
  }

  ghost predicate TopicOk(index: map<Key, seq<Session>>, subs: Subs<Session>, k: Key) {
    if k in index then index[k] == SessionsOf(subs, k) != [] else SessionsOf(subs, k) == []
  }

  lemma {:induction false} IndexAdd(index: map<Key, seq<Session>>, subs: Subs<Session>, s: Session, k: Key)
    requires IndexOk(index, subs)
    ensures IndexOk(index[k := if k in index then index[k] + [s] else [s]], subs + [(s, k)])
  {
    var grown := index[k := if k in index then index[k] + [s] else [s]];
    var more := subs + [(s, k)];
    forall j: Key ensures TopicOk(grown, more, j) {
      assert TopicOk(index, subs, j);
      ProjectionSnoc(subs, (s, k), s, j);
    }
  }

  function Shrunk(index: map<Key, seq<Session>>, k: Key, rest: seq<Session>): map<Key, seq<Session>> {
    if rest == [] then index - {k} else index[k := rest]
  }

  lemma {:induction false} IndexRemove(index: map<Key, seq<Session>>, subs: Subs<Session>, s: Session, k: Key)
    requires IndexOk(index, subs) && k in index
    ensures IndexOk(Shrunk(index, k, Without(index[k], s)), RemoveSub(subs, s, k))
  {
    assert TopicOk(index, subs, k);
    forall j: Key ensures TopicOk(Shrunk(index, k, Without(index[k], s)), RemoveSub(subs, s, k), j) {
      assert TopicOk(index, subs, j);
      RemoveSubProjections(subs, s, k, s, j);
    }
  }

  lemma {:induction false} IndexRemoveNothing(index: map<Key, seq<Session>>, subs: Subs<Session>, s: Session, k: Key)
    requires IndexOk(index, subs) && k !in index
    ensures RemoveSub(subs, s, k) == subs
  {
    assert TopicOk(index, subs, k);
    ProjectionMembers(subs, s, k);
    WithoutAbsent(subs, (s, k));
  }

  /** The sessions of a list that a message is addressed to. */
  function Matching(xs: seq<Session>, ids: map<Session, bv16>, to: bv16): seq<Session> {
    if xs == [] then []
    else Matching(xs[..|xs| - 1], ids, to) + if Addressed(ids, xs[|xs| - 1], to) then [xs[|xs| - 1]] else []
  }

  lemma {:induction false} TargetsAreMatching(subs: Subs<Session>, ids: map<Session, bv16>, k: Key, to: bv16)
    ensures Targets(subs, ids, k, to) == Matching(SessionsOf(subs, k), ids, to)
  {
    if subs != [] {
      var init, last := subs[..|subs| - 1], subs[|subs| - 1];
      TargetsAreMatching(init, ids, k, to);
      assert subs == init + [last];
      ProjectionSnoc(init, last, last.0, k);
      if last.1 == k {
        assert SessionsOf(subs, k)[..|SessionsOf(init, k)|] == SessionsOf(init, k);
      }
    }
  }

  lemma {:induction false} NoTopics(subs: Subs<Session>, s: Session)
    requires forall k :: (s, k) !in subs
    ensures TopicsOf(subs, s) == []
  {
    if TopicsOf(subs, s) != [] {
      var k := TopicsOf(subs, s)[0];
      ProjectionMembers(subs, s, k);
    }
  }

  lemma {:induction false} AddedTopics(subs: Subs<Session>, s: Session, k: Key)
    ensures forall x: Session :: TopicsOf(subs + [(s, k)], x) == if x == s then TopicsOf(subs, x) + [k] else TopicsOf(subs, x)
  {
    forall x: Session
      ensures TopicsOf(subs + [(s, k)], x) == if x == s then TopicsOf(subs, x) + [k] else TopicsOf(subs, x)
    {
      ProjectionSnoc(subs, (s, k), x, k);
    }
  }

  lemma {:induction false} RemovedTopics(subs: Subs<Session>, s: Session, k: Key)
    ensures forall x: Session ::
              TopicsOf(RemoveSub(subs, s, k), x) == if x == s then Without(TopicsOf(subs, x), k) else TopicsOf(subs, x)
    ensures forall p :: p in RemoveSub(subs, s, k) ==> p in subs
  {
    forall x: Session
      ensures TopicsOf(RemoveSub(subs, s, k), x) == if x == s then Without(TopicsOf(subs, x), k) else TopicsOf(subs, x)
    {
      RemoveSubProjections(subs, s, k, x, k);
    }
    forall p | p in RemoveSub(subs, s, k) ensures p in subs {
      WithoutMembers(subs, (s, k), p);
    }
  }

  lemma {:induction false} DroppedTopics(subs: Subs<Session>, s: Session)
    ensures forall x: Session :: TopicsOf(DropSession(subs, s), x) == if x == s then [] else TopicsOf(subs, x)
  {
    forall x: Session ensures TopicsOf(DropSession(subs, s), x) == if x == s then [] else TopicsOf(subs, x) {
      DropProjections(subs, s, x, Key(0));
    }
  }

  /** Removing several topics of one session, one after the other. */
  function RemoveAll(subs: Subs<Session>, s: Session, ks: seq<Key>): Subs<Session> {
    if ks == [] then subs else RemoveSub(RemoveAll(subs, s, ks[..|ks| - 1]), s, ks[|ks| - 1])
  }

  lemma {:induction false} RemoveAllSnoc(subs: Subs<Session>, p: (Session, Key), s: Session, ks: seq<Key>)
    ensures RemoveAll(subs + [p], s, ks) == if p.0 == s && p.1 in ks then RemoveAll(subs, s, ks) else RemoveAll(subs, s, ks) + [p]
  {
    if ks != [] {
      var init, last := ks[..|ks| - 1], ks[|ks| - 1];
      RemoveAllSnoc(subs, p, s, init);
      InInit(ks, p.1);
      WithoutSnoc(RemoveAll(subs, s, init), (s, last), p);
    }
  }

  lemma {:induction false} RemoveAllCovers(subs: Subs<Session>, s: Session, ks: seq<Key>)
    requires forall k :: (s, k) in subs ==> k in ks
    ensures RemoveAll(subs, s, ks) == DropSession(subs, s)
  {
    if subs == [] {
      RemoveAllEmpty(s, ks);
    } else {
      var init, last := subs[..|subs| - 1], subs[|subs| - 1];
      assert subs == init + [last];
      assert last in subs;
      RemoveAllCovers(init, s, ks);
      RemoveAllSnoc(init, last, s, ks);
      ProjectionSnoc(init, last, s, Key(0));
    }
  }

  lemma {:induction false} RemoveAllEmpty(s: Session, ks: seq<Key>)
    ensures RemoveAll([], s, ks) == []
  {
    if ks != [] {
      RemoveAllEmpty(s, ks[..|ks| - 1]);
    }
  }

  /** Removing all of a session's topics is dropping the session. */
  lemma {:induction false} RemoveAllIsDrop(subs: Subs<Session>, s: Session)
    ensures RemoveAll(subs, s, TopicsOf(subs, s)) == DropSession(subs, s)
  {
    forall k | (s, k) in subs ensures k in TopicsOf(subs, s) {
      ProjectionMembers(subs, s, k);
    }
    RemoveAllCovers(subs, s, TopicsOf(subs, s));
  }

  lemma {:induction false} CopiesSnoc(log: seq<(Session, Message)>, xs: seq<Session>, x: Session, m: Message)
    ensures log + Copies(xs + [x], m) == (log + Copies(xs, m)) + [(x, m)]
  {
  }

  lemma {:induction false} MatchingStep(xs: seq<Session>, i: nat, ids: map<Session, bv16>, to: bv16)
    requires i < |xs|
    ensures Matching(xs[..i + 1], ids, to)
         == if Addressed(ids, xs[i], to) then Matching(xs[..i], ids, to) + [xs[i]] else Matching(xs[..i], ids, to)
  {
    assert xs[..i + 1][..i] == xs[..i];
  }

  class Broker {
    var index: map<Key, seq<Session>>
    var log: seq<(Session, Message)>       // what was written to which connection
    ghost var live: set<Session>
    ghost var subs: Subs<Session>

    ghost function Ids(): map<Session, bv16>
      reads this, live
    {
      map s | s in live :: s.nodeId
    }

    /** The state as the specification sees it. */
    ghost function View(): Bus<Session>
      reads this, live
    {
      Bus(subs, Ids(), log)
    }

    /** Both the topic map and the topic lists of the sessions are projections of one log. */
    ghost predicate Valid()
      reads this, live
    {
      && Good(View())
      && IndexOk(index, subs)
      && (forall s :: s in live ==> s.topics == TopicsOf(subs, s))
    }

    constructor ()
      ensures Valid() && View() == Bus([], map[], [])
    {
      index, log, live, subs := map[], [], {}, [];
    }

    /** hbus_ctx_session_add: `added` is false on the already-exists return. */
    method SessionAdd(k: Key, s: Session) returns (added: bool)
      requires IndexOk(index, subs)
      modifies this`index, this`subs
      ensures IndexOk(index, subs) && subs == AddSub(old(subs), s, k)
      ensures added <==> (s, k) !in old(subs)
    {
      assert TopicOk(index, subs, k);
      ProjectionMembers(subs, s, k);
      IndexAdd(index, subs, s, k);
      if k in index {
        var sessions := index[k];
        for i := 0 to |sessions|
          invariant s !in sessions[..i]
        {
          if sessions[i] == s {
            return false;
          }
        }
        index := index[k := sessions + [s]];
      } else {
        index := index[k := [s]];
      }
      subs := subs + [(s, k)];
      added := true;
    }

    /** hbus_ctx_session_rm: a topic whose last session goes is deleted. */
    method SessionRemove(k: Key, s: Session)
      requires IndexOk(index, subs) && NoDup(subs)
      modifies this`index, this`subs
      ensures IndexOk(index, subs) && subs == RemoveSub(old(subs), s, k)
    {
      if k !in index {
        IndexRemoveNothing(index, subs, s, k);
        return;
      }
      assert TopicOk(index, subs, k);
      IndexRemove(index, subs, s, k);
      ProjectionsNoDup(subs, s, k);
      var sessions := index[k];
      var i := 0;
      while i < |sessions|
        invariant i <= |sessions| && s !in sessions[..i]
      {
        if sessions[i] == s {
          break;
        }
        i := i + 1;
      }
      var rest := sessions;
      if i < |sessions| {
        WithoutIsRemoveAt(sessions, i);
        rest := sessions[..i] + sessions[i + 1..];
      } else {
        WithoutAbsent(sessions, s);
      }
      if rest == [] {
        index := index - {k};
      } else {
        index := index[k := rest];
      }
      subs := RemoveSub(subs, s, k);
    }

    /** The two indexes are inverse to each other, without repetitions and without empty topics. */
    lemma {:induction false} TwoWayIndex(s: Session, k: Key)
      requires Valid() && s in live
      ensures k in s.topics <==> k in index && s in index[k]
      ensures NoDup(s.topics)
      ensures k in index ==> index[k] != [] && NoDup(index[k]) && forall x :: x in index[k] ==> x in live
    {
      assert TopicOk(index, subs, k);
      ProjectionMembers(subs, s, k);
      ProjectionsNoDup(subs, s, k);
      if k in index {
        forall x | x in index[k] ensures x in live {
          ListedIsLive(x, k);
        }
      }
    }

    /** on_accept: a connection gets a session without topics and without a node id. */
    method OnAccept() returns (s: Session)
      requires Valid()
      modifies this`live
      ensures Valid() && fresh(s) && live == old(live) + {s}
      ensures View() == Next(old(View()), Accept(s))
    {
      s := new Session();
      assert forall k :: (s, k) !in subs;
      NoTopics(subs, s);
      live := live + {s};
      assert Ids() == old(Ids())[s := 0];
    }

    /**
     Forwarding: a loop over the sessions of the message's topic. It writes once to every live session that is
     subscribed to version, flags and topic, if the message is for everyone or for its node id.
     */
    method Forward(m: Message)
      requires Valid()
      modifies this`log
      ensures Valid()
      ensures log == old(log) + Copies(Targets(subs, Ids(), KeyOf(m), m.to), m)
      ensures NoDup(log[|old(log)|..])
      ensures forall p :: p in log[|old(log)|..] <==>
                && p.1 == m && (p.0, TopicKey(m.version, m.flags, m.topic)) in subs
                && p.0 in live && (m.to == 0xFFFF || p.0.nodeId == m.to)
    {
      hide Copies, Matching, Targets, SessionsOf, TopicsOf, TopicKey, IndexOk;
      var k := KeyOf(m);
      ListedAt(k);
      TargetsAreMatching(subs, Ids(), k, m.to);
      ghost var before := log;
      WriteTo(if k in index then index[k] else [], m);
      assert Ids() == old(Ids());
      ForwardedExactly(before, m);
    }

    /** The loop over a topic's sessions. */
    method WriteTo(sessions: seq<Session>, m: Message)
      requires forall s :: s in sessions ==> s in live
      modifies this`log
      ensures log == old(log) + Copies(Matching(sessions, Ids(), m.to), m)
    {
      ghost var ids, before := Ids(), log;
      assert sessions[..0] == [] && before + Copies(Matching([], ids, m.to), m) == before;
      hide Copies, Matching;
      for i := 0 to |sessions|
        invariant log == before + Copies(Matching(sessions[..i], ids, m.to), m)
      {
        MatchingStep(sessions, i, ids, m.to);
        CopiesSnoc(before, Matching(sessions[..i], ids, m.to), sessions[i], m);
        if m.to == sessions[i].nodeId || m.to == TO_EVERYONE {
          log := log + [(sessions[i], m)];
        }
      }
      assert sessions[..|sessions|] == sessions;
      assert Ids() == ids;
    }

    lemma {:induction false} ListedAt(k: Key)
      requires Valid()
      ensures (if k in index then index[k] else []) == SessionsOf(subs, k)
      ensures forall s :: s in SessionsOf(subs, k) ==> s in live
    {
      assert TopicOk(index, subs, k);
      forall s | s in SessionsOf(subs, k) ensures s in live {
        ListedIsLive(s, k);
      }
    }

    lemma {:induction false} ForwardedExactly(before: seq<(Session, Message)>, m: Message)
      requires Valid() && log == before + Copies(Targets(subs, Ids(), KeyOf(m), m.to), m)
      ensures NoDup(log[|before|..])
      ensures forall p :: p in log[|before|..] <==>
                && p.1 == m && (p.0, TopicKey(m.version, m.flags, m.topic)) in subs
                && p.0 in live && (m.to == 0xFFFF || p.0.nodeId == m.to)
    {
      hide Copies, Matching, Targets, SessionsOf, TopicsOf, TopicKey, IndexOk;
      var copies := Copies(Targets(subs, Ids(), KeyOf(m), m.to), m);
      assert log[|before|..] == copies;
      CopiesNoDup(subs, Ids(), m);
      forall p: (Session, Message)
        ensures p in copies <==>
                && p.1 == m && (p.0, TopicKey(m.version, m.flags, m.topic)) in subs
                && p.0 in live && (m.to == 0xFFFF || p.0.nodeId == m.to)
      {
        CopiesExact(subs, Ids(), m, p);
        assert (p.0, KeyOf(m)) in View().subs ==> p.0 in live;
      }
    }

    lemma {:induction false} ListedIsLive(s: Session, k: Key)
      requires Valid() && s in SessionsOf(subs, k)
      ensures s in live
    {
      ProjectionMembers(subs, s, k);
      assert (s, k) in View().subs;
    }

    /** The search part of the SUB and UNSUB branches: where a session lists a topic. */
    method FindTopic(s: Session, k: Key) returns (j: nat)
      ensures j <= |s.topics| && k !in s.topics[..j]
      ensures j < |s.topics| ==> s.topics[j] == k
    {
      j := 0;
      while j < |s.topics|
        invariant j <= |s.topics| && k !in s.topics[..j]
      {
        if s.topics[j] == k {
          return;
        }
        j := j + 1;
      }
    }

    /** The SUB branch of on_read. The already-exists return of SessionAdd is never taken. */
    method Subscribe(s: Session, k: Key)
      requires Valid() && s in live
      modifies this`index, this`subs, s`topics
      ensures Valid() && View() == old(View()).(subs := AddSub(old(subs), s, k))
    {
      hide TopicKey, SessionsOf, TopicsOf, IndexOk;
      ProjectionMembers(subs, s, k);
      var j := FindTopic(s, k);
      if j < |s.topics| {
        return;
      }
      AddedTopics(subs, s, k);
      NoDupAppend(subs, (s, k));
      var added := SessionAdd(k, s);
      assert added;
      s.topics := s.topics + [k];
      assert Ids() == old(Ids());
    }

    /** The body of the UNSUB branch of on_read. */
    method Unsubscribe(s: Session, k: Key)
      requires Valid() && s in live
      modifies this`index, this`subs, s`topics
      ensures Valid() && View() == old(View()).(subs := RemoveSub(old(subs), s, k))
    {
      hide TopicKey, SessionsOf, TopicsOf, IndexOk;
      ProjectionMembers(subs, s, k);
      ProjectionsNoDup(subs, s, k);
      var j := FindTopic(s, k);
      if j == |s.topics| {
        WithoutAbsent(subs, (s, k));
        return;
      }
      RemovedTopics(subs, s, k);
      WithoutNoDup(subs, (s, k));
      WithoutIsRemoveAt(s.topics, j);
      s.topics := s.topics[..j] + s.topics[j + 1..];
      SessionRemove(k, s);
      assert Ids() == old(Ids());
    }

    /** hbus_seesion_free: the session leaves the list of every topic it has. */
    method SessionFree(s: Session)
      requires Valid() && s in live
      modifies this`index, this`subs, this`live
      ensures Valid() && live == old(live) - {s}
      ensures View() == Next(old(View()), Close(s))
    {
      hide TopicKey, SessionsOf, TopicsOf, IndexOk, Without;
      ghost var before, topics := subs, s.topics;
      for i := 0 to |s.topics|
        invariant IndexOk(index, subs) && NoDup(subs) && live == old(live)
        invariant subs == RemoveAll(before, s, topics[..i])
      {
        assert topics[..i + 1][..i] == topics[..i];
        WithoutNoDup(subs, (s, s.topics[i]));
        SessionRemove(s.topics[i], s);
      }
      assert topics[..|topics|] == topics;
      RemoveAllIsDrop(before, s);
      DroppedTopics(before, s);
      NextGood(old(View()), Close(s));
      live := live - {s};
      assert Ids() == old(Ids()) - {s};
    }

    method Register(s: Session, id: bv16)
      requires Valid() && s in live
      modifies s`nodeId
      ensures Valid() && View() == old(View()).(ids := old(Ids())[s := id])
    {
      s.nodeId := id;
      assert Ids() == old(Ids())[s := id];
    }

    /** on_read: what the broker does with a message, in the order of the program's tests. */
    method OnRead(s: Session, m: Message, length: int)
      requires Valid() && s in live
      modifies this`index, this`subs, this`log, s
      ensures Valid() && live == old(live)
      ensures View() == Next(old(View()), Read(s, m, length))
    {
      hide Broker.Valid, TopicKey;
      if !HeadValid(m, length) {
        return;
      }
      if m.to != TO_BROKER {
        Forward(m);
        assert Ids() == old(Ids());
      } else if TakenAsSub(m.flags) {
        Subscribe(s, SubscribedKey(m));
      } else if m.flags == UNSUB {
        UnsubIsTakenAsSub(m.flags);
        assert false;
      } else if m.flags == REGISTER {
        Register(s, m.from);
      }
    }

    /** on_close. */
    method OnClose(s: Session)
      requires Valid() && s in live
      modifies this`index, this`subs, this`live
      ensures Valid() && live == old(live) - {s}
      ensures View() == Next(old(View()), Close(s))
    {
      SessionFree(s);
    }
  }
}
