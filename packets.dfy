/**
 * The wire codec of the bracelet protocol: a tag byte, then the fields of the
 * packet kind, every variable-length field behind a one-byte length.
 *
 *   InfoExchange  [1][idLen][id][count] ([len][topic])*count
 *   Negotiation   [2][0x01 | 0x00][len][topic]
 *
 * Topics are the UTF-8 bytes of the Python `str` they stand for.
 * `Encode`/`Decode` are the specification; the methods `ToBytes` and
 * `FromBytes` follow the loops of the Python methods and are proved equal to them.
 */
module Packets {
  import opened Common
  import opened Utf8

  const MaxStrLen: nat := 255
  const InfoExchangeTag: Byte := 1
  const NegotiationTag: Byte := 2

  datatype Packet =
    | InfoExchange(id: Bytes, topics: seq<Bytes>)
    | Negotiation(communicate: bool, topic: Bytes)

  /** A field that fits its length byte and, if it is a topic, decodes as UTF-8. */
  predicate IsTopic(t: Bytes)
  {
    |t| <= MaxStrLen && IsWellFormed(t)
  }

  /** Every topic of the list fits its length byte and decodes. */
  predicate AllTopics(ts: seq<Bytes>)
  {
    ts == [] || (IsTopic(ts[0]) && AllTopics(ts[1..]))
  }

  /** What the list predicate says of each member. */
  lemma {:induction false} AllTopicsMember(ts: seq<Bytes>, t: Bytes)
    requires AllTopics(ts) && t in ts
    ensures IsTopic(t)
  {
    if ts[0] != t {
      AllTopicsMember(ts[1..], t);
    }
  }

  /** The packets that survive an encode-decode round trip unchanged. */
  predicate WellFormed(p: Packet)
  {
    match p
    case InfoExchange(id, topics) =>
      |id| <= MaxStrLen && |topics| <= MaxStrLen && AllTopics(topics)
    case Negotiation(_, topic) => IsTopic(topic)
  }

  // ---------------------------------------------------------------- encoding

  /** `s[:255]`: silently cut to what one length byte can announce. */
  function Clamp(s: Bytes): Bytes
  {
    Take(s, MaxStrLen)
  }

  /** `len(s).to_bytes(1, ...) + s` for the clamped `s`. */
  function Field(s: Bytes): Bytes
  {
    var c := Clamp(s);
    var n: Byte := |c|;
    [n] + c
  }

  function EncodeTopics(topics: seq<Bytes>): Bytes
  {
    if topics == [] then [] else Field(topics[0]) + EncodeTopics(topics[1..])
  }

  /** `packet.to_bytes()`: only an exchange packet with more than 255 topics raises. */
  function Encode(p: Packet): (r: Result<Bytes>)
    ensures r.Failure? <==> p.InfoExchange? && |p.topics| > MaxStrLen
    ensures r.Failure? ==> r.error == OverflowError
    ensures r.Success? ==> |r.value| >= 3
    ensures r.Success? && p.InfoExchange? ==> r.value[0] == InfoExchangeTag
    ensures r.Success? && p.Negotiation? ==> r.value[0] == NegotiationTag
  {
    match p
    case InfoExchange(id, topics) =>
      if |topics| > MaxStrLen then Failure(OverflowError)
      else
        var count: Byte := |topics|;
        Success([InfoExchangeTag] + Field(id) + [count] + EncodeTopics(topics))
    case Negotiation(communicate, topic) =>
      Success([NegotiationTag] + [if communicate then 1 else 0] + Field(topic))
  }

  // ---------------------------------------------------------------- decoding

  /** `acc` in front of the list a successful `r` carries. */
  function Prepend(acc: seq<Bytes>, r: Result<seq<Bytes>>): Result<seq<Bytes>>
  {
    match r
    case Success(ts) => Success(acc + ts)
    case Failure(e) => Failure(e)
  }

  /**
   * The topic loop of `InfoExchangePacket.from_bytes`: `count` times a length
   * byte (IndexError when missing), then at most that many bytes, decoded.
   */
  function DecodeTopics(b: Bytes, count: nat): (r: Result<seq<Bytes>>)
    ensures r.Failure? ==> r.error == IndexError || r.error == UnicodeDecodeError
    decreases count
  {
    if count == 0 then Success([])
    else if |b| == 0 then Failure(IndexError)
    else
      var topic := Take(b[1..], b[0]);
      if !IsWellFormed(topic) then Failure(UnicodeDecodeError)
      else Prepend([topic], DecodeTopics(Drop(b[1..], b[0]), count - 1))
  }

  /** `InfoExchangePacket.from_bytes(b)`, `b` being what follows the tag. */
  function DecodeInfoExchange(b: Bytes): (r: Result<Packet>)
    ensures |b| < 2 ==> r == Failure(IndexError)
    ensures r.Failure? ==> r.error == IndexError || r.error == UnicodeDecodeError
    ensures r.Success? ==> r.value.InfoExchange? && |r.value.id| <= MaxStrLen
  {
    if |b| == 0 then Failure(IndexError)
    else
      var id := Take(b[1..], b[0]);
      var rest := Drop(b[1..], b[0]);
      if |rest| == 0 then Failure(IndexError)
      else WithId(id, DecodeTopics(rest[1..], rest[0]))
  }

  function WithId(id: Bytes, r: Result<seq<Bytes>>): Result<Packet>
  {
    match r
    case Success(topics) => Success(InfoExchange(id, topics))
    case Failure(e) => Failure(e)
  }

  /** `NegotiationPacket.from_bytes(b)`: any non-zero flag byte means "communicate". */
  function DecodeNegotiation(b: Bytes): (r: Result<Packet>)
    ensures r == Failure(IndexError) <==> |b| < 2
    ensures r.Failure? ==> r.error == IndexError || r.error == UnicodeDecodeError
    ensures r.Success? ==> r.value.Negotiation? && |r.value.topic| <= MaxStrLen && |r.value.topic| <= |b| - 2
  {
    if |b| < 2 then Failure(IndexError)
    else
      var topic := Take(b[2..], b[1]);
      if IsWellFormed(topic) then Success(Negotiation(b[0] != 0, topic))
      else Failure(UnicodeDecodeError)
  }

  function Known(r: Result<Packet>): Result<Option<Packet>>
  {
    match r
    case Success(p) => Success(Some(p))
    case Failure(e) => Failure(e)
  }

  /**
   * `BasePacket.from_bytes(b)`: `None` for an unknown tag, IndexError for an
   * empty buffer, and only well-formed packets otherwise.
   */
  function Decode(b: Bytes): (r: Result<Option<Packet>>)
    ensures |b| == 0 ==> r == Failure(IndexError)
    ensures r.Failure? ==> r.error == IndexError || r.error == UnicodeDecodeError
    ensures r == Success(None) <==> |b| > 0 && b[0] != InfoExchangeTag && b[0] != NegotiationTag
    ensures r.Success? && r.value.Some? ==> (r.value.value.InfoExchange? <==> b[0] == InfoExchangeTag)
  {
    if |b| == 0 then Failure(IndexError)
    else if b[0] == InfoExchangeTag then Known(DecodeInfoExchange(b[1..]))
    else if b[0] == NegotiationTag then Known(DecodeNegotiation(b[1..]))
    else Success(None)
  }

  // ---------------------------------------------------------------- the Python loops

  /** `InfoExchangePacket.to_bytes`: the buffer grows field by field. */
  method InfoExchangeToBytes(id: Bytes, topics: seq<Bytes>) returns (r: Result<Bytes>)
    ensures r == Encode(InfoExchange(id, topics))
  {
    var b: Bytes := [InfoExchangeTag];
    var clamped := Take(id, MaxStrLen);
    var idLen: Byte := |clamped|;
    b := b + [idLen] + clamped;
    if |topics| > MaxStrLen {
      return Failure(OverflowError);
    }
    var count: Byte := |topics|;
    b := b + [count];
    for i := 0 to |topics|
      invariant b == [InfoExchangeTag] + Field(id) + [count] + EncodeTopics(topics[..i])
    {
      var topic := Take(topics[i], MaxStrLen);
      var topicLen: Byte := |topic|;
      b := b + [topicLen] + topic;
      EncodeTopicsAppend(topics[..i], [topics[i]]);
      assert topics[..i + 1] == topics[..i] + [topics[i]];
    }
    assert topics[..|topics|] == topics;
    return Success(b);
  }

  /** `InfoExchangePacket.from_bytes`: `b` is resliced field by field and `topics` filled by index. */
  method InfoExchangeFromBytes(input: Bytes) returns (r: Result<Packet>)
    ensures r == DecodeInfoExchange(input)
  {
    var b := input;
    if |b| == 0 {
      return Failure(IndexError);
    }
    var idLength := b[0];
    b := b[1..];
    var id := Take(b, idLength);
    b := Drop(b, idLength);
    if |b| == 0 {
      return Failure(IndexError);
    }
    var topicCount := b[0];
    b := b[1..];
    ghost var whole := DecodeTopics(b, topicCount);
    var topics := new Bytes[topicCount](_ => []);
    assert topics[..0] == [];
    match whole {
      case Success(ts) => assert [] + ts == ts;
      case Failure(_) =>
    }
    for i := 0 to topicCount
      invariant whole == Prepend(topics[..i], DecodeTopics(b, topicCount - i))
    {
      if |b| == 0 {
        return Failure(IndexError);
      }
      var topicLength := b[0];
      b := b[1..];
      var topicName := Take(b, topicLength);
      if !IsWellFormed(topicName) {
        return Failure(UnicodeDecodeError);
      }
      b := Drop(b, topicLength);
      PrependTwice(topics[..i], [topicName], DecodeTopics(b, topicCount - i - 1));
      topics[i] := topicName;
      assert topics[..i + 1] == topics[..i] + [topicName];
    }
    assert topics[..] == topics[..topicCount];
    assert topics[..] + [] == topics[..];
    return Success(InfoExchange(id, topics[..]));
  }

  /** `packet.to_bytes()` dispatched on the packet's class. */
  method ToBytes(p: Packet) returns (r: Result<Bytes>)
    ensures r == Encode(p)
  {
    match p
    case InfoExchange(id, topics) =>
      r := InfoExchangeToBytes(id, topics);
    case Negotiation(communicate, topic) =>
      var flag: Byte := if communicate then 1 else 0;
      var clamped := Take(topic, MaxStrLen);
      var topicLen: Byte := |clamped|;
      r := Success([NegotiationTag] + [flag] + [topicLen] + clamped);
      assert [NegotiationTag] + [flag] + Field(topic) == [NegotiationTag] + [flag] + [topicLen] + clamped;
  }

  /** `BasePacket.from_bytes(b)`. */
  method FromBytes(b: Bytes) returns (r: Result<Option<Packet>>)
    ensures r == Decode(b)
  {
    if |b| == 0 {
      return Failure(IndexError);
    }
    var packetId := b[0];
    if packetId == InfoExchangeTag {
      var p := InfoExchangeFromBytes(b[1..]);
      r := Known(p);
    } else if packetId == NegotiationTag {
      r := Known(DecodeNegotiation(b[1..]));
    } else {
      r := Success(None);
    }
  }

  // ---------------------------------------------------------------- properties

  lemma PrependNothing(r: Result<seq<Bytes>>)
    ensures Prepend([], r) == r
  {
    if r.Success? {
      assert [] + r.value == r.value;
    }
  }

  lemma PrependTwice(a: seq<Bytes>, b: seq<Bytes>, r: Result<seq<Bytes>>)
    ensures Prepend(a, Prepend(b, r)) == Prepend(a + b, r)
  {
    if r.Success? {
      assert a + (b + r.value) == (a + b) + r.value;
    }
  }

  /** Encoding a list of topics is encoding each in turn. */
  lemma {:induction false} EncodeTopicsAppend(a: seq<Bytes>, b: seq<Bytes>)
    ensures EncodeTopics(a + b) == EncodeTopics(a) + EncodeTopics(b)
    decreases |a|
  {
    if a == [] {
      assert a + b == b;
    } else {
      assert (a + b)[1..] == a[1..] + b;
      EncodeTopicsAppend(a[1..], b);
    }
  }

  /** What the topic loop produces: `count` topics that fit and decode, or IndexError / UnicodeDecodeError. */
  lemma {:induction false} DecodedTopics(b: Bytes, count: nat)
    ensures var r := DecodeTopics(b, count);
      && (r.Success? ==> |r.value| == count && AllTopics(r.value))
      && (r.Failure? ==> r.error == IndexError || r.error == UnicodeDecodeError)
    decreases count
  {
    if count > 0 && |b| > 0 {
      var topic := Take(b[1..], b[0]);
      DecodedTopics(Drop(b[1..], b[0]), count - 1);
      var r := DecodeTopics(Drop(b[1..], b[0]), count - 1);
      if IsWellFormed(topic) && r.Success? {
        assert ([topic] + r.value)[1..] == r.value;
      }
    }
  }

  /** Every packet `Decode` yields is well-formed; the only exceptions it raises are IndexError and UnicodeDecodeError. */
  lemma DecodedIsWellFormed(b: Bytes)
    ensures var r := Decode(b);
      && (r.Success? && r.value.Some? ==> WellFormed(r.value.value))
      && (r.Failure? ==> r.error == IndexError || r.error == UnicodeDecodeError)
  {
    if |b| > 1 && b[0] == InfoExchangeTag {
      var body := b[1..];
      var rest := Drop(body[1..], body[0]);
      if |rest| > 0 {
        DecodedTopics(rest[1..], rest[0]);
      }
    }
  }

  /** A field written for a value that fits reads back as that value, and leaves what follows. */
  lemma ReadField(v: Bytes, tail: Bytes)
    requires |v| <= MaxStrLen
    ensures var b := Field(v) + tail;
      |b| > 0 && b[0] == |v| && Take(b[1..], b[0]) == v && Drop(b[1..], b[0]) == tail
  {
    var b := Field(v) + tail;
    assert Clamp(v) == v;
    assert b[1..] == v + tail;
  }

  /** One turn of the topic loop over a field the encoder wrote. */
  lemma DecodeTopicsField(t: Bytes, tail: Bytes, n: nat)
    requires IsTopic(t)
    ensures DecodeTopics(Field(t) + tail, n + 1) == Prepend([t], DecodeTopics(tail, n))
  {
    ReadField(t, tail);
  }

  lemma DecodeFirstTopic(ts: seq<Bytes>, rest: Bytes, n: nat)
    requires ts != [] && IsTopic(ts[0])
    ensures DecodeTopics(EncodeTopics(ts) + rest, n + 1)
      == Prepend([ts[0]], DecodeTopics(EncodeTopics(ts[1..]) + rest, n))
  {
    var tail := EncodeTopics(ts[1..]) + rest;
    assert EncodeTopics(ts) + rest == Field(ts[0]) + tail;
    DecodeTopicsField(ts[0], tail, n);
  }

  /** Decoding reads back every topic the encoder wrote, whatever follows them. */
  lemma {:induction false} DecodeEncodedTopics(ts: seq<Bytes>, rest: Bytes, k: nat)
    requires AllTopics(ts)
    ensures DecodeTopics(EncodeTopics(ts) + rest, |ts| + k) == Prepend(ts, DecodeTopics(rest, k))
    decreases |ts|
  {
    if ts == [] {
      assert EncodeTopics(ts) + rest == rest;
      PrependNothing(DecodeTopics(rest, k));
    } else {
      DecodeEncodedTopics(ts[1..], rest, k);
      DecodeEncodedTopicsStep(ts, rest, k);
    }
  }

  /** The induction step: one more topic in front of topics already read back. */
  lemma DecodeEncodedTopicsStep(ts: seq<Bytes>, rest: Bytes, k: nat)
    requires ts != [] && IsTopic(ts[0])
    requires DecodeTopics(EncodeTopics(ts[1..]) + rest, |ts[1..]| + k) == Prepend(ts[1..], DecodeTopics(rest, k))
    ensures DecodeTopics(EncodeTopics(ts) + rest, |ts| + k) == Prepend(ts, DecodeTopics(rest, k))
  {
    var n := |ts[1..]| + k;
    var r := DecodeTopics(rest, k);
    calc {
      DecodeTopics(EncodeTopics(ts) + rest, n + 1);
      { DecodeFirstTopic(ts, rest, n); }
      Prepend([ts[0]], DecodeTopics(EncodeTopics(ts[1..]) + rest, n));
      Prepend([ts[0]], Prepend(ts[1..], r));
      { PrependTwice([ts[0]], ts[1..], r); assert [ts[0]] + ts[1..] == ts; }
      Prepend(ts, r);
    }
  }

  /** The id field and the count byte of an exchange packet, read back. */
  lemma DecodeInfoExchangeFields(id: Bytes, count: Byte, tail: Bytes)
    requires |id| <= MaxStrLen
    ensures DecodeInfoExchange(Field(id) + ([count] + tail)) == WithId(id, DecodeTopics(tail, count))
  {
    ReadField(id, [count] + tail);
    assert ([count] + tail)[1..] == tail;
  }

  /**
   * Round trip: a packet whose id, topic count and topics fit their length
   * bytes (and whose topics are UTF-8) encodes, and decodes back to itself;
   * bytes after the last field are ignored.
   */
  lemma RoundTrip(p: Packet, trailing: Bytes)
    requires WellFormed(p)
    ensures Encode(p).Success?
    ensures Decode(Encode(p).value + trailing) == Success(Some(p))
  {
    match p
    case InfoExchange(id, topics) => InfoExchangeRoundTrip(id, topics, trailing);
    case Negotiation(communicate, topic) => NegotiationRoundTrip(communicate, topic, trailing);
  }

  lemma InfoExchangeRoundTrip(id: Bytes, topics: seq<Bytes>, trailing: Bytes)
    requires WellFormed(InfoExchange(id, topics))
    ensures Encode(InfoExchange(id, topics)).Success?
    ensures Decode(Encode(InfoExchange(id, topics)).value + trailing) == Success(Some(InfoExchange(id, topics)))
  {
    var count: Byte := |topics|;
    var tail := EncodeTopics(topics) + trailing;
    var b := Encode(InfoExchange(id, topics)).value + trailing;
    InfoExchangeEncoded(id, topics, trailing);
    calc {
      Decode(b);
      Known(DecodeInfoExchange(b[1..]));
      Known(DecodeInfoExchange(Field(id) + ([count] + tail)));
      { DecodeInfoExchangeFields(id, count, tail); }
      Known(WithId(id, DecodeTopics(tail, count)));
      { DecodeEncodedTopics(topics, trailing, 0); }
      Known(WithId(id, Prepend(topics, DecodeTopics(trailing, 0))));
      { assert topics + [] == topics; }
      Success(Some(InfoExchange(id, topics)));
    }
  }

  /** An exchange packet laid out as the encoder does, with `tail` behind the count byte. */
  lemma InfoExchangeBody(id: Bytes, count: Byte, tail: Bytes)
    ensures ([InfoExchangeTag] + Field(id) + [count] + tail)[1..] == Field(id) + ([count] + tail)
  {
    var w := Field(id) + ([count] + tail);
    Regroup([InfoExchangeTag], Field(id), [count], tail, []);
    assert tail + [] == tail;
    assert ([InfoExchangeTag] + w)[1..] == w;
  }

  /** The encoded exchange packet, followed by `trailing`, seen from behind its tag byte. */
  lemma InfoExchangeEncoded(id: Bytes, topics: seq<Bytes>, trailing: Bytes)
    requires |topics| <= MaxStrLen
    ensures var b := Encode(InfoExchange(id, topics)).value + trailing;
      var count: Byte := |topics|;
      |b| > 0 && b[0] == InfoExchangeTag && b[1..] == Field(id) + ([count] + (EncodeTopics(topics) + trailing))
  {
    var count: Byte := |topics|;
    var w := Field(id) + ([count] + (EncodeTopics(topics) + trailing));
    Regroup([InfoExchangeTag], Field(id), [count], EncodeTopics(topics), trailing);
    assert ([InfoExchangeTag] + w)[1..] == w;
  }

  lemma Regroup(a: Bytes, b: Bytes, c: Bytes, d: Bytes, e: Bytes)
    ensures a + b + c + d + e == a + (b + (c + (d + e)))
  {
    calc {
      a + b + c + d + e;
      (a + b + c) + (d + e);
      (a + b) + (c + (d + e));
      a + (b + (c + (d + e)));
    }
  }

  lemma NegotiationRoundTrip(communicate: bool, topic: Bytes, trailing: Bytes)
    requires IsTopic(topic)
    ensures Decode(Encode(Negotiation(communicate, topic)).value + trailing)
      == Success(Some(Negotiation(communicate, topic)))
  {
    var flag: Byte := if communicate then 1 else 0;
    var b := [NegotiationTag] + [flag] + Field(topic) + trailing;
    assert Encode(Negotiation(communicate, topic)).value + trailing == b;
    ReadField(topic, trailing);
    assert b[1..] == [flag] + (Field(topic) + trailing);
    assert b[1..][1..] == Field(topic) + trailing;
    assert DecodeNegotiation(b[1..]) == Success(Negotiation(communicate, topic));
  }

  /** Decoding is stable: what was decoded re-encodes to bytes that decode the same. */
  lemma DecodeIsStable(b: Bytes)
    requires Decode(b).Success? && Decode(b).value.Some?
    ensures Encode(Decode(b).value.value).Success?
    ensures Decode(Encode(Decode(b).value.value).value) == Decode(b)
  {
    var p := Decode(b).value.value;
    DecodedIsWellFormed(b);
    RoundTrip(p, []);
    assert Encode(p).value + [] == Encode(p).value;
  }

  /**
   * Layout of a topic list: the k-th length byte is min(len, 255) and the
   * bytes behind it are the first that many bytes of the k-th topic.
   */
  lemma TopicFieldAt(ts: seq<Bytes>, k: nat)
    requires k < |ts|
    ensures var off := |EncodeTopics(ts[..k])|;
      var n := Min(|ts[k]|, MaxStrLen);
      off + 1 + n <= |EncodeTopics(ts)|
      && EncodeTopics(ts)[off] == n
      && EncodeTopics(ts)[off + 1..off + 1 + n] == ts[k][..n]
  {
    assert ts == ts[..k] + ([ts[k]] + ts[k + 1..]);
    EncodeTopicsAppend(ts[..k], [ts[k]] + ts[k + 1..]);
    var pre, f, rest := EncodeTopics(ts[..k]), Field(ts[k]), EncodeTopics(ts[k + 1..]);
    assert EncodeTopics([ts[k]] + ts[k + 1..]) == f + rest;
    var n := Min(|ts[k]|, MaxStrLen);
    assert EncodeTopics(ts) == pre + (f + rest);
    assert |f| == 1 + n && f[0] == n && f[1..] == ts[k][..n];
    assert (pre + (f + rest))[|pre| + 1..|pre| + 1 + n] == f[1..];
  }

  /**
   * Layout of an exchange packet: tag 1, the clamped id behind its length,
   * the topic count, then the topic fields in list order.
   */
  lemma InfoExchangeLayout(id: Bytes, ts: seq<Bytes>)
    requires |ts| <= MaxStrLen
    ensures var b := Encode(InfoExchange(id, ts)).value;
      var n := Min(|id|, MaxStrLen);
      |b| == 3 + n + |EncodeTopics(ts)|
      && b[0] == InfoExchangeTag && b[1] == n && b[2..2 + n] == id[..n]
      && b[2 + n] == |ts| && b[3 + n..] == EncodeTopics(ts)
  {
  }

  /** Layout of a negotiation packet: tag 2, the flag as 0x01 or 0x00, the clamped topic behind its length. */
  lemma NegotiationLayout(communicate: bool, topic: Bytes)
    ensures var b := Encode(Negotiation(communicate, topic)).value;
      var n := Min(|topic|, MaxStrLen);
      |b| == 3 + n && b[0] == NegotiationTag && b[1] == (if communicate then 1 else 0)
      && b[2] == n && b[3..] == topic[..n]
  {
  }

  /**
   * Any non-zero flag byte decodes as "communicate", so decoding and
   * re-encoding a negotiation reproduces its bytes with the flag normalised to 0x01.
   */
  lemma NegotiationFlagNormalised(b: Bytes)
    requires |b| >= 3 && b[0] == NegotiationTag && 3 + b[2] <= |b|
    requires Decode(b).Success?
    ensures Encode(Decode(b).value.value).Success?
    ensures Encode(Decode(b).value.value).value == [NegotiationTag, if b[1] != 0 then 1 else 0] + b[2..3 + b[2]]
  {
    var topic := Decode(b).value.value.topic;
    assert topic == b[3..3 + b[2]];
    assert Clamp(topic) == topic;
  }

  /** A topic length beyond the end of a negotiation yields the shorter topic, not an error. */
  lemma ShortNegotiationTopic(flag: Byte, n: Byte, t: Bytes)
    requires |t| < n && IsWellFormed(t)
    ensures Decode([NegotiationTag, flag, n] + t) == Success(Some(Negotiation(flag != 0, t)))
  {
    var b := [NegotiationTag, flag, n] + t;
    assert b[1..] == [flag, n] + t;
    assert b[1..][2..] == t;
    assert Take(t, n) == t;
    assert DecodeNegotiation(b[1..]) == Success(Negotiation(flag != 0, t));
  }

  /** A negotiation is missing a byte, and raises IndexError, exactly when it has fewer than three. */
  lemma NegotiationIndexError(b: Bytes)
    requires |b| > 0 && b[0] == NegotiationTag
    ensures Decode(b) == Failure(IndexError) <==> |b| < 3
  {
  }

  /** An id shorter than its declared length leaves no topic count byte: IndexError. */
  lemma ShortIdFails(n: Byte, id: Bytes)
    requires |id| <= n
    ensures Decode([InfoExchangeTag, n] + id) == Failure(IndexError)
  {
    var b := [InfoExchangeTag, n] + id;
    assert b[1..][1..] == id;
  }

  /** More topics announced than present: the missing length byte raises IndexError. */
  lemma DeclaredTopicsMissing(id: Bytes, ts: seq<Bytes>, count: Byte)
    requires |id| <= MaxStrLen && AllTopics(ts)
    requires |ts| < count
    ensures Decode([InfoExchangeTag] + Field(id) + [count] + EncodeTopics(ts)) == Failure(IndexError)
  {
    calc {
      Decode([InfoExchangeTag] + Field(id) + [count] + EncodeTopics(ts));
      { DecodeInfoExchangePacket(id, count, EncodeTopics(ts)); }
      Known(WithId(id, DecodeTopics(EncodeTopics(ts), count)));
      { TopicsMissing(ts, count); }
      Known(WithId(id, Failure(IndexError)));
    }
  }

  lemma TopicsMissing(ts: seq<Bytes>, count: nat)
    requires AllTopics(ts) && |ts| < count
    ensures DecodeTopics(EncodeTopics(ts), count) == Failure(IndexError)
  {
    assert EncodeTopics(ts) + [] == EncodeTopics(ts);
    DecodeEncodedTopics(ts, [], count - |ts|);
  }

  /** A last topic shorter than its declared length is read short instead. */
  lemma ShortLastTopic(id: Bytes, ts: seq<Bytes>, n: Byte, t: Bytes)
    requires |id| <= MaxStrLen && |ts| < MaxStrLen && AllTopics(ts)
    requires |t| < n && IsWellFormed(t)
    ensures var count: Byte := |ts| + 1;
      Decode([InfoExchangeTag] + Field(id) + [count] + (EncodeTopics(ts) + ([n] + t)))
        == Success(Some(InfoExchange(id, ts + [t])))
  {
    var count: Byte := |ts| + 1;
    var last := [n] + t;
    DecodeInfoExchangePacket(id, count, EncodeTopics(ts) + last);
    TopicsThenShortTopic(ts, n, t);
  }

  lemma TopicsThenShortTopic(ts: seq<Bytes>, n: Byte, t: Bytes)
    requires AllTopics(ts) && |t| < n && IsWellFormed(t)
    ensures DecodeTopics(EncodeTopics(ts) + ([n] + t), |ts| + 1) == Success(ts + [t])
  {
    DecodeEncodedTopics(ts, [n] + t, 1);
    ShortTopic(n, t);
  }

  /** A single topic whose declared length runs past the end is read short. */
  lemma ShortTopic(n: Byte, t: Bytes)
    requires |t| < n && IsWellFormed(t)
    ensures DecodeTopics([n] + t, 1) == Success([t])
  {
    var last := [n] + t;
    assert last[1..] == t;
    assert Take(t, n) == t;
    DecodeTopicsStep(last, 1);
    assert [t] + [] == [t];
  }

  /** One turn of the topic loop that reads a well-formed topic. */
  lemma DecodeTopicsStep(b: Bytes, count: nat)
    requires count > 0 && |b| > 0 && IsWellFormed(Take(b[1..], b[0]))
    ensures DecodeTopics(b, count)
      == Prepend([Take(b[1..], b[0])], DecodeTopics(Drop(b[1..], b[0]), count - 1))
  {
  }

  /** An exchange packet with the given id and count byte decodes as its topic list does. */
  lemma DecodeInfoExchangePacket(id: Bytes, count: Byte, tail: Bytes)
    requires |id| <= MaxStrLen
    ensures Decode([InfoExchangeTag] + Field(id) + [count] + tail) == Known(WithId(id, DecodeTopics(tail, count)))
  {
    InfoExchangeBody(id, count, tail);
    DecodeInfoExchangeFields(id, count, tail);
  }

  /**
   * Clamping counts bytes, not characters: a topic whose 256 bytes end in a
   * two-byte character is cut inside it, and the packet no longer decodes.
   */
  lemma ClampSplitsCharacter(prefix: Bytes)
    requires |prefix| == MaxStrLen - 1 && IsAscii(prefix)
    ensures IsWellFormed(prefix + [0xC3, 0x9F])
    ensures Decode(Encode(Negotiation(true, prefix + [0xC3, 0x9F])).value) == Failure(UnicodeDecodeError)
  {
    var topic := prefix + [0xC3, 0x9F];
    AsciiIsWellFormed(prefix);
    assert LeadWidth([0xC3, 0x9F]) == 2;
    assert IsWellFormed([0xC3, 0x9F][2..]);
    AppendWellFormed(prefix, [0xC3, 0x9F]);
    var cut := Clamp(topic);
    assert cut == prefix + [0xC3];
    assert LeadWidth([0xC3]) == 0;
    AppendWellFormed(prefix, [0xC3]);
    var b := Encode(Negotiation(true, topic)).value;
    assert b[1..][2..] == cut;
    assert Take(cut, b[1..][1]) == cut;
  }
}
