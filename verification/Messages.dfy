/**
 Message heads and topic keys. The key of a topic packs version, flags and topic number into
 one 32-bit word, and both the broker and the nodes look subscriptions up by it.
 */
module Messages {

  const MAGIC: bv16 := 0x55AA
  const TO_BROKER: bv16 := 0xFFFE
  const TO_EVERYONE: bv16 := 0xFFFF
  const REGISTER: bv8 := 0x00
  const DATA: bv8 := 0x10
  const SUB: bv8 := 0x20
  const UNSUB: bv8 := 0x30
  const PUBSUB: bv8 := 0x00
  const REQUEST: bv8 := 0x01
  const RESPOND: bv8 := 0x02

  const HEAD_SIZE := 32
  const LENGTH_MAX := 1024 * 1024 * 64

  /** A topic key, an int32_t in the program. */
  datatype Key = Key(word: bv32)

  datatype Message = Message(
    magic: bv16, version: bv8, flags: bv8, topic: bv16, from: bv16, to: bv16, sn: bv32, payloadSize: nat, payload: seq<bv8>)

  /** HMSG_HEAD_VALID, for a message read as `length` bytes. */
  predicate HeadValid(m: Message, length: int) {
    m.magic == MAGIC && HEAD_SIZE <= length <= LENGTH_MAX && length == HEAD_SIZE + m.payloadSize
  }

  /**
   In numbers: a head is 32 bytes, the magic is 0x55AA, and a message with a payload of `p` bytes is taken
   exactly if it is read as 32 + p bytes and these are at most 64 MiB, so p at most 67108832.
   */
  lemma {:induction false} ValidIff(m: Message, length: int)
    ensures HeadValid(m, length) <==> m.magic == 0x55AA && length == 32 + m.payloadSize && m.payloadSize <= 67108832
  {
  }

  /** HMSG_TOPICEX. */
  function TopicKey(version: bv8, flags: bv8, topic: bv16): Key {
    Key(((version as bv32) << 24) | ((flags as bv32) << 16) | (topic as bv32))
  }

  function KeyOf(m: Message): Key {
    TopicKey(m.version, m.flags, m.topic)
  }

  /** The key under which a SUB message subscribes: version 0, DATA, and the low flag bits. */
  function SubscribedKey(m: Message): Key {
    TopicKey(0, DATA | (m.flags & 0x0F), m.topic)
  }

  /** Each part can be read back from the key. */
  lemma {:induction false} Unpack(v: bv8, f: bv8, t: bv16)
    ensures TopicKey(v, f, t).word >> 24 == v as bv32
    ensures (TopicKey(v, f, t).word >> 16) & 0xFF == f as bv32
    ensures TopicKey(v, f, t).word & 0xFFFF == t as bv32
  {
  }

  lemma {:induction false} WidenInjective(a: bv8, b: bv8, c: bv16, d: bv16)
    ensures a as bv32 == b as bv32 ==> a == b
    ensures c as bv32 == d as bv32 ==> c == d
  {
  }

  /** The packing loses nothing. */
  lemma {:induction false} TopicKeyInjective(v1: bv8, f1: bv8, t1: bv16, v2: bv8, f2: bv8, t2: bv16)
    requires TopicKey(v1, f1, t1) == TopicKey(v2, f2, t2)
    ensures v1 == v2 && f1 == f2 && t1 == t2
  {
    Unpack(v1, f1, t1);
    Unpack(v2, f2, t2);
    hide TopicKey;
    WidenInjective(v1, v2, t1, t2);
    WidenInjective(f1, f2, t1, t2);
  }

  /** The dispatch test of the broker: a bit test, which UNSUB passes too. */
  predicate TakenAsSub(flags: bv8) {
    SUB & flags != 0
  }

  /** No message reaches the UNSUB branch: its flags already pass the SUB test. */
  lemma {:induction false} UnsubIsTakenAsSub(flags: bv8)
    ensures flags == UNSUB ==> TakenAsSub(flags)
    ensures flags == REGISTER ==> !TakenAsSub(flags)
  {
  }

  /** A subscription made with one of the data flags is delivered under the key that data carries. */
  lemma {:induction false} SubscribedKeyOfNode(m: Message, data: bv8)
    requires data <= 0x0F && m.flags == SUB | data
    ensures SubscribedKey(m) == TopicKey(0, DATA | data, m.topic)
    ensures TakenAsSub(m.flags)
  {
    assert (SUB | data) & 0x0F == data;
    assert SUB & (SUB | data) == SUB;
  }
}
