/**
 Agreement between a node and the broker over one connection.

 Threads of the node run hnode_subscribe_i concurrently: look the key up under the mutex, write a
 SUB message, store the handler under the mutex. The connection is a FIFO channel; the
 broker reads it and serves other connections in between. Whatever else the node writes is no
 SUB, and registers nobody but the node itself. Writes succeed.
 */
module Agreement {
  import opened Messages
  import opened BusSpec
  import opened Sequences

  /** What travels on the connection: a message and the number of bytes it is read as. */
  datatype Frame = Frame(m: Message, length: int)

  datatype Call =
    | Started(data: bv8, topic: bv16)
    | Absent(data: bv8, topic: bv16)      // the key was looked up and not found
    | Written(key: Key)                   // SUB written, handler not yet stored

  datatype Link = Link(
    me: nat,
    nodeId: bv16,
    handlers: set<Key>,
    calls: map<nat, Call>,
    channel: seq<Frame>,
    bus: Bus<nat>)

  datatype Step =
    | Begin(c: nat, data: bv8, topic: bv16)
    | Look(c: nat)
    | Write(c: nat)
    | Store(c: nat)
    | Other(f: Frame)
    | Deliver
    | Foreign(e: Event<nat>)

  function NodeKey(data: bv8, topic: bv16): Key {
    TopicKey(0, DATA | data, topic)
  }

  predicate DataFlag(data: bv8) {
    data == PUBSUB || data == REQUEST || data == RESPOND
  }

  function SubMessage(from: bv16, data: bv8, topic: bv16): Message {
    Message(MAGIC, 0, SUB | data, topic, from, TO_BROKER, 0, 0, [])
  }

  /** The broker takes this frame as a subscription. */
  predicate IsSub(f: Frame) {
    HeadValid(f.m, f.length) && f.m.to == TO_BROKER && TakenAsSub(f.m.flags)
  }

  /** The broker takes this frame as a registration. */
  predicate IsRegister(f: Frame) {
    HeadValid(f.m, f.length) && f.m.to == TO_BROKER && f.m.flags == REGISTER
  }

  /** The state right after the connection was accepted and the node registered. */
  function Connected(me: nat, nodeId: bv16, bus: Bus<nat>): Link {
    Link(me, nodeId, {}, map[], [Frame(Message(MAGIC, 0, REGISTER, 0, nodeId, TO_BROKER, 0, 0, []), HEAD_SIZE)], bus)
  }

  predicate Enabled(s: Link, step: Step) {
    match step
    case Begin(c, data, _) => c !in s.calls && DataFlag(data)
    case Look(c) => c in s.calls && s.calls[c].Started?
    case Write(c) => c in s.calls && s.calls[c].Absent?
    case Store(c) => c in s.calls && s.calls[c].Written?
    case Other(f) => !IsSub(f) && (IsRegister(f) ==> f.m.from == s.nodeId)
    case Deliver => s.channel != []
    case Foreign(e) => e.s != s.me && Possible(s.bus, e)
  }

  function Apply(s: Link, step: Step): Link
    requires Enabled(s, step)
  {
    match step
    case Begin(c, data, topic) => s.(calls := s.calls[c := Started(data, topic)])
    case Look(c) =>
      var call := s.calls[c];
      if NodeKey(call.data, call.topic) in s.handlers then s.(calls := s.calls - {c})
      else s.(calls := s.calls[c := Absent(call.data, call.topic)])
    case Write(c) =>
      var call := s.calls[c];
      s.(channel := s.channel + [Frame(SubMessage(s.nodeId, call.data, call.topic), HEAD_SIZE)],
         calls := s.calls[c := Written(NodeKey(call.data, call.topic))])
    case Store(c) => s.(handlers := s.handlers + {s.calls[c].key}, calls := s.calls - {c})
    case Other(f) => s.(channel := s.channel + [f])
    case Deliver =>
      s.(bus := Next(s.bus, Read(s.me, s.channel[0].m, s.channel[0].length)), channel := s.channel[1..])
    case Foreign(e) => s.(bus := Next(s.bus, e))
  }

  function SubKeys(channel: seq<Frame>): set<Key> {
    if channel == [] then {}
    else SubKeys(channel[..|channel| - 1]) + KeysOfFrame(channel[|channel| - 1])
  }

  function KeysOfFrame(f: Frame): set<Key> {
    if IsSub(f) then {SubscribedKey(f.m)} else {}
  }

  function PendingKeys(calls: map<nat, Call>): set<Key> {
    set c | c in calls && calls[c].Written? :: calls[c].key
  }

  function BrokerKeys(s: Link): set<Key> {
    set p | p in s.bus.subs && p.0 == s.me :: p.1
  }

  /** Every handler key is a key of data messages. */
  predicate DataKey(k: Key) {
    (k.word >> 16) & 0xF0 == DATA as bv32
  }

  /**
   What the broker knows together with what is on its way is what the node knows together with
   the calls that have written but not yet stored.
   */
  ghost predicate Agree(s: Link) {
    && s.me in s.bus.ids
    && BrokerKeys(s) + SubKeys(s.channel) == s.handlers + PendingKeys(s.calls)
    && (forall k :: k in s.handlers + PendingKeys(s.calls) ==> DataKey(k))
    && (forall c :: c in s.calls && (s.calls[c].Started? || s.calls[c].Absent?) ==> DataFlag(s.calls[c].data))
  }

  // ------------------------------------------------------------------ steps

  lemma {:induction false} SubKeysSnoc(channel: seq<Frame>, f: Frame)
    ensures SubKeys(channel + [f]) == SubKeys(channel) + KeysOfFrame(f)
  {
    assert (channel + [f])[..|channel|] == channel;
  }

  lemma {:induction false} SubKeysHead(channel: seq<Frame>)
    requires channel != []
    ensures SubKeys(channel) == KeysOfFrame(channel[0]) + SubKeys(channel[1..])
  {
    var last := |channel| - 1;
    if last == 0 {
      assert channel[..last] == [];
      assert channel[1..] == [];
    } else {
      SubKeysHead(channel[..last]);
      assert channel[..last][1..] == channel[1..][..last - 1];
    }
  }

  lemma {:induction false} NodeKeyIsDataKey(data: bv8, topic: bv16)
    requires DataFlag(data)
    ensures DataKey(NodeKey(data, topic))
  {
    Unpack(0, DATA | data, topic);
    assert ((DATA | data) as bv32) & 0xF0 == DATA as bv32;
  }

  lemma {:induction false} SubMessageSubscribes(from: bv16, data: bv8, topic: bv16)
    requires DataFlag(data)
    ensures IsSub(Frame(SubMessage(from, data, topic), HEAD_SIZE))
    ensures SubscribedKey(SubMessage(from, data, topic)) == NodeKey(data, topic)
  {
    SubscribedKeyOfNode(SubMessage(from, data, topic), data);
  }

  lemma {:induction false} PendingUpdate(calls: map<nat, Call>, c: nat, call: Call)
    requires c in calls ==> !calls[c].Written?
    ensures PendingKeys(calls[c := call]) == PendingKeys(calls) + if call.Written? then {call.key} else {}
  {
    var after := calls[c := call];
    forall d | d in calls && d != c ensures d in after && after[d] == calls[d] {
    }
    assert c in after && after[c] == call;
  }

  lemma {:induction false} PendingRemove(calls: map<nat, Call>, c: nat)
    requires c in calls
    ensures PendingKeys(calls - {c}) + (if calls[c].Written? then {calls[c].key} else {}) == PendingKeys(calls)
  {
    var after := calls - {c};
    forall d | d in calls && d != c ensures d in after && after[d] == calls[d] {
    }
  }

  lemma {:induction false} DeliverKeeps(s: Link)
    requires Agree(s) && s.channel != []
    ensures Agree(Apply(s, Deliver))
  {
    SubKeysHead(s.channel);
    var f, s' := s.channel[0], Apply(s, Deliver);
    if IsSub(f) {
      assert BrokerKeys(s') == BrokerKeys(s) + {SubscribedKey(f.m)} by {
        AddedBrokerKey(s.bus.subs, s.me, SubscribedKey(f.m));
      }
    } else {
      assert s'.bus.subs == s.bus.subs;
    }
  }

  lemma {:induction false} AddedBrokerKey(subs: Subs<nat>, me: nat, k: Key)
    ensures (set p | p in AddSub(subs, me, k) && p.0 == me :: p.1) == (set p | p in subs && p.0 == me :: p.1) + {k}
  {
    assert (me, k) in AddSub(subs, me, k);
    assert forall p :: p in subs ==> p in AddSub(subs, me, k);
  }

  lemma {:induction false} ForeignKeeps(s: Link, e: Event<nat>)
    requires Agree(s) && e.s != s.me && Possible(s.bus, e)
    ensures Agree(Apply(s, Foreign(e)))
  {
    var s' := Apply(s, Foreign(e));
    forall k ensures (s.me, k) in s'.bus.subs <==> (s.me, k) in s.bus.subs {
      DropMembers(s.bus.subs, e.s, s.me, k);
    }
    assert BrokerKeys(s') == BrokerKeys(s);
  }

  lemma {:induction false} LookKeeps(s: Link, c: nat)
    requires Agree(s) && Enabled(s, Look(c))
    ensures Agree(Apply(s, Look(c)))
  {
    hide TopicKey, DataKey;
    PendingUpdate(s.calls, c, Absent(s.calls[c].data, s.calls[c].topic));
    PendingRemove(s.calls, c);
  }

  lemma {:induction false} WriteKeeps(s: Link, c: nat)
    requires Agree(s) && Enabled(s, Write(c))
    ensures Agree(Apply(s, Write(c)))
  {
    hide DataKey, PendingKeys, SubKeys, IsSub, SubscribedKey, NodeKey;
    var call := s.calls[c];
    SubMessageSubscribes(s.nodeId, call.data, call.topic);
    NodeKeyIsDataKey(call.data, call.topic);
    PendingUpdate(s.calls, c, Written(NodeKey(call.data, call.topic)));
    SubKeysSnoc(s.channel, Frame(SubMessage(s.nodeId, call.data, call.topic), HEAD_SIZE));
  }

  lemma {:induction false} BeginKeeps(s: Link, c: nat, data: bv8, topic: bv16)
    requires Agree(s) && Enabled(s, Begin(c, data, topic))
    ensures Agree(Apply(s, Begin(c, data, topic)))
  {
    hide DataKey, PendingKeys;
    PendingUpdate(s.calls, c, Started(data, topic));
  }

  lemma {:induction false} StoreKeeps(s: Link, c: nat)
    requires Agree(s) && Enabled(s, Store(c))
    ensures Agree(Apply(s, Store(c)))
  {
    hide DataKey, PendingKeys;
    PendingRemove(s.calls, c);
  }

  lemma {:induction false} OtherKeeps(s: Link, f: Frame)
    requires Agree(s) && Enabled(s, Other(f))
    ensures Agree(Apply(s, Other(f)))
  {
    hide DataKey, PendingKeys, SubKeys;
    SubKeysSnoc(s.channel, f);
  }

  /** Every step of every thread, of the channel and of the broker keeps the agreement. */
  lemma {:induction false} StepKeepsAgreement(s: Link, step: Step)
    requires Agree(s) && Enabled(s, step)
    ensures Agree(Apply(s, step))
  {
    hide Agree, IsSub, Next;
    match step
    case Begin(c, data, topic) => BeginKeeps(s, c, data, topic);
    case Look(c) => LookKeeps(s, c);
    case Write(c) => WriteKeeps(s, c);
    case Store(c) => StoreKeeps(s, c);
    case Other(f) => OtherKeeps(s, f);
    case Deliver => DeliverKeeps(s);
    case Foreign(e) => ForeignKeeps(s, e);
  }

  // ------------------------------------------------------------------ runs

  ghost predicate IsRun(trace: seq<Link>, steps: seq<Step>) {
    && |trace| == |steps| + 1
    && (exists me, id, bus :: trace[0] == Connected(me, id, bus) && me in bus.ids && Good(bus) && forall k :: (me, k) !in bus.subs)
    && (forall i :: 0 <= i < |steps| ==> Enabled(trace[i], steps[i]) && trace[i + 1] == Apply(trace[i], steps[i]))
  }

  lemma {:induction false} ConnectedAgrees(me: nat, id: bv16, bus: Bus<nat>)
    requires me in bus.ids && forall k :: (me, k) !in bus.subs
    ensures Agree(Connected(me, id, bus))
  {
    var s := Connected(me, id, bus);
    assert BrokerKeys(s) == {} by {
      forall p | p in bus.subs ensures p.0 != me {
        assert p == (p.0, p.1);
      }
    }
    assert s.channel[..0] == [];
    assert !TakenAsSub(REGISTER);
  }

  lemma {:induction false} RunAgrees(trace: seq<Link>, steps: seq<Step>, i: nat)
    requires IsRun(trace, steps) && i < |trace|
    ensures Agree(trace[i])
  {
    if i == 0 {
      var me, id, bus :| trace[0] == Connected(me, id, bus) && me in bus.ids && Good(bus) && forall k :: (me, k) !in bus.subs;
      ConnectedAgrees(me, id, bus);
    } else {
      RunAgrees(trace, steps, i - 1);
      StepKeepsAgreement(trace[i - 1], steps[i - 1]);
    }
  }

  /** When nothing is on its way and no call is between its write and its store, both sides know the same topics. */
  lemma {:induction false} DrainedSidesAgree(trace: seq<Link>, steps: seq<Step>, i: nat, k: Key)
    requires IsRun(trace, steps) && i < |trace|
    requires trace[i].channel == []
    requires forall c :: c in trace[i].calls ==> !trace[i].calls[c].Written?
    ensures k in trace[i].handlers <==> k in TopicsOf(trace[i].bus.subs, trace[i].me)
  {
    RunAgrees(trace, steps, i);
    var s := trace[i];
    ProjectionMembers(s.bus.subs, s.me, k);
    assert PendingKeys(s.calls) == {} && SubKeys(s.channel) == {};
    assert k in BrokerKeys(s) <==> (s.me, k) in s.bus.subs by {
      if (s.me, k) in s.bus.subs {
        assert (s.me, k).1 in BrokerKeys(s);
      }
    }
  }

  lemma {:induction false} DataKeyPassesFilter(m: Message)
    requires DataKey(KeyOf(m))
    ensures 0x10 & m.flags != 0
  {
    Unpack(m.version, m.flags, m.topic);
    assert (m.flags as bv32) & 0xF0 == DATA as bv32;
    assert (m.flags & 0xF0) as bv32 == (m.flags as bv32) & 0xF0;
  }

  // ------------------------------------------------------------------ the node's own id

  /** The broker knows the node by its id, or a registration is still on its way. */
  ghost predicate Named(s: Link) {
    && s.me in s.bus.ids
    && (forall f :: f in s.channel && IsRegister(f) ==> f.m.from == s.nodeId)
    && (s.bus.ids[s.me] == s.nodeId || exists f :: f in s.channel && IsRegister(f))
  }

  lemma {:induction false} DeliverKeepsNamed(s: Link)
    requires Named(s) && s.channel != []
    ensures Named(Apply(s, Deliver))
  {
    var f, s' := s.channel[0], Apply(s, Deliver);
    assert s.channel == [f] + s'.channel;
    assert s'.bus.ids == if IsRegister(f) && !IsSub(f) then s.bus.ids[s.me := f.m.from] else s.bus.ids;
    UnsubIsTakenAsSub(f.m.flags);
    if s'.bus.ids[s.me] != s.nodeId {
      var g :| g in s.channel && IsRegister(g);
      assert g in s'.channel;
    }
  }

  lemma {:induction false} StepKeepsNamed(s: Link, step: Step)
    requires Named(s) && Enabled(s, step)
    ensures Named(Apply(s, step))
  {
    hide IsRegister, IsSub;
    var s' := Apply(s, step);
    if step.Deliver? {
      DeliverKeepsNamed(s);
    } else {
      forall f | f in s.channel ensures f in s'.channel {
      }
      if step.Write? {
        var call := s.calls[step.c];
        SubIsNoRegister(s.nodeId, call.data, call.topic);
      }
    }
  }

  lemma {:induction false} SubIsNoRegister(from: bv16, data: bv8, topic: bv16)
    ensures !IsRegister(Frame(SubMessage(from, data, topic), HEAD_SIZE))
  {
    assert SUB | data != REGISTER;
  }

  lemma {:induction false} RunNamed(trace: seq<Link>, steps: seq<Step>, i: nat)
    requires IsRun(trace, steps) && i < |trace|
    ensures Named(trace[i])
  {
    hide Apply, Enabled;
    if i == 0 {
      assert trace[0].channel[0] in trace[0].channel;
    } else {
      RunNamed(trace, steps, i - 1);
      StepKeepsNamed(trace[i - 1], steps[i - 1]);
    }
  }

  /** Once everything has arrived, the broker knows the node by its own id. */
  lemma {:induction false} DrainedKnowsId(trace: seq<Link>, steps: seq<Step>, i: nat)
    requires IsRun(trace, steps) && i < |trace| && trace[i].channel == []
    ensures trace[i].me in trace[i].bus.ids && trace[i].bus.ids[trace[i].me] == trace[i].nodeId
  {
    RunNamed(trace, steps, i);
  }

  // ------------------------------------------------------------------ end to end

  /**
   When the two sides are drained, the broker forwards a message that it reads from any
   session `x` to this node exactly if the message is valid and not for the broker, the node has a handler for
   its key, and it is for everyone or for the node's own id; and every key with a handler passes
   the DATA test with which the node filters what it reads.
   */
  lemma {:induction false} ForwardedIffHandled(trace: seq<Link>, steps: seq<Step>, i: nat, x: nat, m: Message, length: int)
    requires IsRun(trace, steps) && i < |trace|
    requires trace[i].channel == []
    requires forall c :: c in trace[i].calls ==> !trace[i].calls[c].Written?
    ensures var s := trace[i];
            && ((s.me, m) in BusSpec.Written(s.bus, Read(x, m, length)) <==>
                && m.magic == 0x55AA && length == 32 + m.payloadSize && m.payloadSize <= 67108832 && m.to != 0xFFFE
                && TopicKey(m.version, m.flags, m.topic) in s.handlers
                && (m.to == 0xFFFF || m.to == s.nodeId))
            && (TopicKey(m.version, m.flags, m.topic) in s.handlers ==> 0x10 & m.flags != 0)
  {
    var s := trace[i];
    DrainedSidesAgree(trace, steps, i, KeyOf(m));
    DrainedKnowsId(trace, steps, i);
    ProjectionMembers(s.bus.subs, s.me, KeyOf(m));
    WrittenTo(s.bus, x, m, length, s.me);
    RunAgrees(trace, steps, i);
    if KeyOf(m) in s.handlers {
      DataKeyPassesFilter(m);
    }
  }

  lemma {:induction false} WrittenTo(b: Bus<nat>, x: nat, m: Message, length: int, y: nat)
    ensures (y, m) in BusSpec.Written(b, Read(x, m, length)) <==>
            && m.magic == 0x55AA && length == 32 + m.payloadSize && m.payloadSize <= 67108832 && m.to != 0xFFFE
            && (y, TopicKey(m.version, m.flags, m.topic)) in b.subs
            && (m.to == 0xFFFF || (y in b.ids && b.ids[y] == m.to))
  {
    ValidIff(m, length);
    var copies := Copies(Targets(b.subs, b.ids, KeyOf(m), m.to), m);
    assert BusSpec.Written(b, Read(x, m, length)) == if HeadValid(m, length) && m.to != TO_BROKER then copies else [];
    CopiesExact(b.subs, b.ids, m, (y, m));
  }

  /** Handlers never shrink. */
  lemma {:induction false} HandlersGrow(trace: seq<Link>, steps: seq<Step>, i: nat, j: nat)
    requires IsRun(trace, steps) && i <= j < |trace|
    ensures trace[i].handlers <= trace[j].handlers
    ensures trace[i].me == trace[j].me && trace[i].nodeId == trace[j].nodeId
    decreases j
  {
    if i < j {
      HandlersGrow(trace, steps, i, j - 1);
    }
  }

  /** The call is still under way, or its key has a handler. */
  predicate UnderWayOrDone(s: Link, c: nat, data: bv8, topic: bv16) {
    || NodeKey(data, topic) in s.handlers
    || (c in s.calls && s.calls[c] in {Started(data, topic), Absent(data, topic), Call.Written(NodeKey(data, topic))})
  }

  lemma {:induction false} CallStaysUntilDone(s: Link, step: Step, c: nat, data: bv8, topic: bv16)
    requires Enabled(s, step) && UnderWayOrDone(s, c, data, topic)
    ensures UnderWayOrDone(Apply(s, step), c, data, topic)
  {
    hide TopicKey;
  }

  lemma {:induction false} CallTracked(trace: seq<Link>, steps: seq<Step>, i: nat, j: nat, c: nat, data: bv8, topic: bv16)
    requires IsRun(trace, steps) && i < j < |trace| && steps[i] == Begin(c, data, topic)
    ensures UnderWayOrDone(trace[j], c, data, topic)
    decreases j
  {
    hide TopicKey;
    if i + 1 < j {
      CallTracked(trace, steps, i, j - 1, c, data, topic);
      CallStaysUntilDone(trace[j - 1], steps[j - 1], c, data, topic);
    }
  }

  /**
   What a subscribe call achieves: in every run, once it has ended there is a handler for its topic, for ever; and
   whenever the connection is drained from then on, the broker has the subscription.
   */
  lemma {:induction false} SubscribeTakesEffect(
    trace: seq<Link>, steps: seq<Step>, i: nat, e: nat, j: nat, c: nat, data: bv8, topic: bv16)
    requires IsRun(trace, steps) && i < e <= j < |trace|
    requires steps[i] == Begin(c, data, topic) && c !in trace[e].calls
    ensures TopicKey(0, 0x10 | data, topic) in trace[j].handlers
    ensures trace[j].channel == [] ==> TopicKey(0, 0x10 | data, topic) in TopicsOf(trace[j].bus.subs, trace[j].me)
  {
    hide TopicKey;
    var s, k := trace[j], NodeKey(data, topic);
    CallTracked(trace, steps, i, e, c, data, topic);
    HandlersGrow(trace, steps, e, j);
    if s.channel == [] {
      RunAgrees(trace, steps, j);
      assert SubKeys(s.channel) == {};
      assert k in BrokerKeys(s);
      ProjectionMembers(s.bus.subs, s.me, k);
    }
  }

  /**
   Publish and subscribe, end to end: after a subscribe call has ended and the connection is drained, every valid
   message for that topic to everyone or to this node, from whatever session, is written to this node.
   */
  lemma {:induction false} SubscriberGetsMessage(
    trace: seq<Link>, steps: seq<Step>, i: nat, j: nat, c: nat, data: bv8, x: nat, m: Message)
    requires IsRun(trace, steps) && i < j < |trace|
    requires steps[i] == Begin(c, data, m.topic) && c !in trace[j].calls && trace[j].channel == []
    requires m.magic == 0x55AA && m.version == 0 && m.flags == 0x10 | data && m.payloadSize <= 67108832
    requires m.to == 0xFFFF || (m.to == trace[j].nodeId && m.to != 0xFFFE)
    ensures (trace[j].me, m) in BusSpec.Written(trace[j].bus, Read(x, m, 32 + m.payloadSize))
  {
    hide TopicKey;
    var s := trace[j];
    SubscribeTakesEffect(trace, steps, i, j, j, c, data, m.topic);
    DrainedKnowsId(trace, steps, j);
    ProjectionMembers(s.bus.subs, s.me, KeyOf(m));
    WrittenTo(s.bus, x, m, 32 + m.payloadSize, s.me);
  }

  // ------------------------------------------------------------------ calls can end, channels can drain

  /** These steps are possible one after the other and lead from `s` to `s'`. */
  ghost predicate Leads(s: Link, steps: seq<Step>, s': Link)
    decreases |steps|
  {
    if steps == [] then s' == s else Enabled(s, steps[0]) && Leads(Apply(s, steps[0]), steps[1..], s')
  }

  lemma {:induction false} LeadsFirst(s: Link, step: Step, rest: seq<Step>, s': Link)
    requires Enabled(s, step) && Leads(Apply(s, step), rest, s')
    ensures Leads(s, [step] + rest, s')
  {
    assert ([step] + rest)[1..] == rest;
  }

  /**
   A call of hnode_subscribe_i alone: if the key has a handler, two steps and nothing has changed; if not, four steps,
   after which there is one handler more and one SUB more on the connection.
   */
  lemma {:induction false} SubscribeCompletes(s: Link, c: nat, data: bv8, topic: bv16) returns (s': Link)
    requires c !in s.calls && data in {0x00, 0x01, 0x02}
    ensures if TopicKey(0, 0x10 | data, topic) in s.handlers then
              Leads(s, [Begin(c, data, topic), Look(c)], s') && s' == s
            else
              && Leads(s, [Begin(c, data, topic), Look(c), Write(c), Store(c)], s')
              && s' == s.(handlers := s.handlers + {TopicKey(0, 0x10 | data, topic)},
                          channel := s.channel + [Frame(Message(0x55AA, 0, 0x20 | data, topic, s.nodeId, 0xFFFE, 0, 0, []), 32)])
  {
    hide TopicKey;
    var begin := Begin(c, data, topic);
    var s1 := Apply(s, begin);
    var s2 := Apply(s1, Look(c));
    if NodeKey(data, topic) in s.handlers {
      s' := s2;
      LeadsFirst(s1, Look(c), [], s2);
      LeadsFirst(s, begin, [Look(c)], s2);
      assert [begin] + [Look(c)] == [begin, Look(c)];
    } else {
      var s3 := Apply(s2, Write(c));
      s' := Apply(s3, Store(c));
      LeadsFirst(s3, Store(c), [], s');
      LeadsFirst(s2, Write(c), [Store(c)], s');
      LeadsFirst(s1, Look(c), [Write(c)] + [Store(c)], s');
      LeadsFirst(s, begin, [Look(c)] + ([Write(c)] + [Store(c)]), s');
      assert [begin] + ([Look(c)] + ([Write(c)] + [Store(c)])) == [begin, Look(c), Write(c), Store(c)];
    }
    assert s'.calls == s.calls;
  }

  function Times(n: nat): seq<Step> {
    seq(n, _ => Deliver)
  }

  /** As many deliveries as there are messages on the connection drain it; the node's side is not touched. */
  lemma {:induction false} ChannelDrains(s: Link) returns (s': Link)
    ensures Leads(s, Times(|s.channel|), s')
    ensures s' == s.(channel := [], bus := s'.bus)
    decreases |s.channel|
  {
    s' := s;
    if s.channel != [] {
      s' := ChannelDrains(Apply(s, Deliver));
      LeadsFirst(s, Deliver, Times(|s.channel| - 1), s');
      assert Times(|s.channel|) == [Deliver] + Times(|s.channel| - 1);
    }
  }

  /**
   hnode_unsubscribe does nothing: it looks a key with the UNSUB flags up, and no handler is
   ever stored under such a key, so it returns before it writes or deletes.
   */
  lemma {:induction false} UnsubscribeFindsNothing(trace: seq<Link>, steps: seq<Step>, i: nat, topic: bv16)
    requires IsRun(trace, steps) && i < |trace|
    ensures TopicKey(0, UNSUB | PUBSUB, topic) !in trace[i].handlers
  {
    RunAgrees(trace, steps, i);
    Unpack(0, UNSUB | PUBSUB, topic);
    assert !DataKey(TopicKey(0, UNSUB | PUBSUB, topic));
  }
}
