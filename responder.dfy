/**
 * The answering side: the callback run whenever a connected peer has sent
 * something.  It keeps, per connection, what the peer announced about itself
 * and answers each packet: an exchange packet with this bracelet's own
 * exchange packet, a negotiation with either the same proposal (accepting it
 * and taking the session slot) or a refusal `(false, "")`.
 *
 * The file descriptor is abstracted away: a read is given as its outcome
 * (the bytes, or the `OSError` it raised), a write as whether it succeeds.
 */
module Responder {
  import opened Common
  import opened Packets
  import opened Session

  /** What a peer announced on one connection; both fields are set together. */
  class ConnectionData {
    var id: Option<Bytes>
    var topics: Option<seq<Bytes>>

    predicate Valid()
      reads this
    {
      id.Some? <==> topics.Some?
    }

    constructor ()
      ensures id == None && topics == None && Valid()
    {
      id := None;
      topics := None;
    }
  }

  /** The per-connection callback object; the handler hangs its data on it on first use. */
  class Connection {
    var data: ConnectionData?

    constructor ()
      ensures data == null
    {
      data := null;
    }
  }

  /** The refusal `NegotiationPacket(False, "")`. */
  function Refusal(): Bytes
  {
    Encode(Negotiation(false, [])).value
  }

  /** The refusal is the three bytes tag 2, flag 0, empty topic. */
  lemma RefusalBytes()
    ensures Refusal() == [NegotiationTag, 0, 0]
    ensures Decode(Refusal()) == Success(Some(Negotiation(false, [])))
  {
    NegotiationRoundTrip(false, [], []);
    assert Refusal() + [] == Refusal();
  }

  /**
   * The decision chain of `on_negotionation`: refuse without a recorded
   * peer, when the peer does not want to talk, while another peer holds the
   * slot, without recorded topics, or when the topic is not on both lists.
   */
  predicate Accepts(id: Option<Bytes>, topics: Option<seq<Bytes>>, communicate: bool, topic: Bytes,
                    local: seq<Bytes>, partner: Option<Bytes>)
    ensures Accepts(id, topics, communicate, topic, local, partner) ==> id.Some? && communicate && topic in local
    ensures partner != None && partner != id ==> !Accepts(id, topics, communicate, topic, local, partner)
  {
    if id.None? then false
    else if !communicate then false
    else if IsCommunicating(partner, None) && !IsCommunicating(partner, id) then false
    else if topics.None? then false
    else topic in topics.value && topic in local
  }

  /** The chain accepts exactly the proposals on a common topic while the slot is free or already the peer's. */
  lemma AcceptsIff(id: Option<Bytes>, topics: Option<seq<Bytes>>, communicate: bool, topic: Bytes,
                   local: seq<Bytes>, partner: Option<Bytes>)
    ensures Accepts(id, topics, communicate, topic, local, partner) <==>
      && id.Some? && communicate
      && (partner == None || partner == id)
      && topics.Some? && topic in topics.value && topic in local
  {
    if id.Some? {
      MayTakeSlot(partner, id.value);
    }
  }

  /** The bytes `on_negotionation` writes: the proposal itself when accepted, else the refusal. */
  function NegotiationReply(accept: bool, topic: Bytes): Bytes
  {
    if accept then Encode(Negotiation(true, topic)).value else Refusal()
  }

  /** The state one connection's handler sees: the recorded peer and the slot. */
  datatype State = State(id: Option<Bytes>, topics: Option<seq<Bytes>>, partner: Option<Bytes>)

  /** What one call leaves: whether to keep the watch, what was written, the new state. */
  datatype Step = Step(keep: bool, written: Option<Bytes>, state: State)

  /**
   * `io_cb` on values: any exception (a failed read, an undecodable packet,
   * an encoding overflow, a failed write) returns `False`.
   */
  function Handle(me: Profile, s: State, read: Result<Bytes>, writeOk: bool): (r: Step)
    ensures r.written.Some? ==> r.keep
    ensures !writeOk || read.Failure? ==> r.written == None
    ensures r.state.partner == s.partner || (r.written.Some? && r.state.partner == s.id && s.id != None)
    ensures r.state.id == s.id || (r.state.id.Some? && r.state.topics.Some?)
  {
    match read
    case Failure(_) => Step(false, None, s)
    case Success(b) =>
      match Decode(b)
      case Failure(_) => Step(false, None, s)
      case Success(None) => Step(true, None, s)
      case Success(Some(InfoExchange(id, topics))) =>
        var s' := s.(id := Some(id), topics := Some(topics));
        var hello := Encode(InfoExchange(me.id, me.topics));
        if hello.Failure? || !writeOk then Step(false, None, s')
        else Step(true, Some(hello.value), s')
      case Success(Some(Negotiation(communicate, topic))) =>
        var accept := Accepts(s.id, s.topics, communicate, topic, me.topics, s.partner);
        if !writeOk then Step(false, None, s)
        else Step(true, Some(NegotiationReply(accept, topic)), if accept then s.(partner := s.id) else s)
  }

  /** Id and topics stay recorded together. */
  lemma HandleKeepsPairing(me: Profile, s: State, read: Result<Bytes>, writeOk: bool)
    requires s.id.Some? <==> s.topics.Some?
    ensures var s' := Handle(me, s, read, writeOk).state;
      s'.id.Some? <==> s'.topics.Some?
  {
  }

  /**
   * The responder never frees the slot: after any call it is unchanged, or
   * it is the recorded peer's, taken while free or already that peer's, for
   * a topic on both lists.
   */
  lemma NeverReleases(me: Profile, s: State, read: Result<Bytes>, writeOk: bool)
    ensures var s' := Handle(me, s, read, writeOk).state;
      && (s.partner.Some? ==> s'.partner.Some?)
      && (s'.partner != s.partner ==>
          && s.id.Some? && s'.partner == s.id
          && (s.partner == None)
          && read.Success? && Decode(read.value).Success? && Decode(read.value).value.Some?
          && var p := Decode(read.value).value.value;
             p.Negotiation? && p.communicate && p.topic in s.topics.value && p.topic in me.topics)
  {
    if read.Success? && Decode(read.value).Success? && Decode(read.value).value.Some? {
      var p := Decode(read.value).value.value;
      if p.Negotiation? {
        AcceptsIff(s.id, s.topics, p.communicate, p.topic, me.topics, s.partner);
      }
    }
  }

  /** Whatever bytes decode to an exchange packet are answered with exactly the local exchange packet, and recorded. */
  lemma HelloAnswered(me: Profile, s: State, b: Bytes, id: Bytes, topics: seq<Bytes>)
    requires Decode(b) == Success(Some(InfoExchange(id, topics))) && |me.topics| <= MaxStrLen
    ensures Handle(me, s, Success(b), true)
      == Step(true, Some(Encode(InfoExchange(me.id, me.topics)).value), State(Some(id), Some(topics), s.partner))
  {
  }

  /**
   * An accepted proposal is echoed: when the packet received was laid out as
   * the encoder does, the echo is that very packet.  (The echo is re-encoded,
   * so other layouts come back normalised, see `NegotiationFlagNormalised`.)
   */
  lemma AcceptEchoes(me: Profile, s: State, topic: Bytes)
    requires IsTopic(topic)
    requires Accepts(s.id, s.topics, true, topic, me.topics, s.partner)
    ensures var b := Encode(Negotiation(true, topic)).value;
      Handle(me, s, Success(b), true) == Step(true, Some(b), s.(partner := s.id))
  {
    var b := Encode(Negotiation(true, topic)).value;
    NegotiationRoundTrip(true, topic, []);
    assert b + [] == b;
  }

  /** Without a recorded peer every negotiation is refused and the slot is left alone. */
  lemma NoPeerRefuses(me: Profile, s: State, b: Bytes)
    requires s.id == None
    requires Decode(b).Success? && Decode(b).value.Some? && Decode(b).value.value.Negotiation?
    ensures Handle(me, s, Success(b), true) == Step(true, Some(Refusal()), s)
  {
  }

  /** An unknown tag is ignored: nothing written, nothing recorded, the watch kept. */
  lemma UnknownIgnored(me: Profile, s: State, b: Bytes, writeOk: bool)
    requires |b| > 0 && b[0] != InfoExchangeTag && b[0] != NegotiationTag
    ensures Handle(me, s, Success(b), writeOk) == Step(true, None, s)
  {
  }

  /** `on_info_exchange`: record the peer, then write the local exchange packet. */
  method OnInfoExchange(data: ConnectionData, id: Bytes, topics: seq<Bytes>, me: Profile, writeOk: bool)
    returns (r: Result<Bytes>)
    modifies data
    ensures data.id == Some(id) && data.topics == Some(topics) && data.Valid()
    ensures r.Success? <==> Encode(InfoExchange(me.id, me.topics)).Success? && writeOk
    ensures r.Success? ==> r.value == Encode(InfoExchange(me.id, me.topics)).value
    ensures r.Failure? ==> r.error == (if Encode(InfoExchange(me.id, me.topics)).Failure? then OverflowError else OSError)
  {
    data.id := Some(id);
    data.topics := Some(topics);
    var b := ToBytes(InfoExchange(me.id, me.topics));
    if b.Failure? {
      return b;
    }
    if !writeOk {
      return Failure(OSError);
    }
    return b;
  }

  /** `on_negotionation`: the decline chain, then the echo, then the commit. */
  method OnNegotiation(data: ConnectionData, communicate: bool, topic: Bytes, me: Profile, session: Slot, writeOk: bool)
    returns (r: Result<Bytes>)
    modifies session
    ensures var accept := Accepts(data.id, data.topics, communicate, topic, me.topics, old(session.partner));
      && r == (if writeOk then Success(NegotiationReply(accept, topic)) else Failure(OSError))
      && session.partner == (if writeOk && accept then data.id else old(session.partner))
  {
    ghost var accept := Accepts(data.id, data.topics, communicate, topic, me.topics, session.partner);
    var refusal := ToBytes(Negotiation(false, []));
    if data.id.None? {
      return if writeOk then refusal else Failure(OSError);
    }
    if !communicate {
      return if writeOk then refusal else Failure(OSError);
    }
    var busy := session.Communicating(None);
    var busyWithPeer := session.Communicating(data.id);
    if busy && !busyWithPeer {
      return if writeOk then refusal else Failure(OSError);
    }
    if data.topics.Some? {
      if topic !in data.topics.value || topic !in me.topics {
        return if writeOk then refusal else Failure(OSError);
      }
    } else {
      return if writeOk then refusal else Failure(OSError);
    }
    var echo := ToBytes(Negotiation(communicate, topic));
    if !writeOk {
      return Failure(OSError);
    }
    session.Start(data.id.value);
    return echo;
  }

  /**
   * `io_cb`: attach the connection data on first use, read, decode and
   * dispatch on the packet kind; any exception returns `False`.
   */
  method IoCb(conn: Connection, read: Result<Bytes>, writeOk: bool, me: Profile, session: Slot)
    returns (keep: bool, written: Option<Bytes>)
    requires conn.data != null ==> conn.data.Valid()
    modifies conn, conn.data, session
    ensures conn.data != null && conn.data.Valid()
    ensures old(conn.data) != null ==> conn.data == old(conn.data)
    ensures old(conn.data) == null ==> fresh(conn.data)
    ensures var before := if old(conn.data) == null then State(None, None, old(session.partner))
                          else State(old(conn.data.id), old(conn.data.topics), old(session.partner));
      Step(keep, written, State(conn.data.id, conn.data.topics, session.partner)) == Handle(me, before, read, writeOk)
  {
    if conn.data == null {
      conn.data := new ConnectionData();
    }
    var data := conn.data;
    if read.Failure? {
      return false, None;
    }
    var packet := FromBytes(read.value);
    if packet.Failure? {
      return false, None;
    }
    match packet.value
    case None =>
      return true, None;
    case Some(InfoExchange(id, topics)) =>
      var r := OnInfoExchange(data, id, topics, me, writeOk);
      if r.Failure? {
        return false, None;
      }
      return true, Some(r.value);
    case Some(Negotiation(communicate, topic)) =>
      var r := OnNegotiation(data, communicate, topic, me, session, writeOk);
      if r.Failure? {
        return false, None;
      }
      return true, Some(r.value);
  }
}
