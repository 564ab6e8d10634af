/**
 * The two sides against each other: an initiator running `_exchange_topics`
 * over a socket whose answers are the ones the responder's callback writes.
 */
module Handshake {
  import opened Common
  import opened Packets
  import opened Session
  import opened Client
  import opened Responder

  /**
   * Two idle bracelets with a topic in common both end up in a session with
   * each other: the initiator proposes a common topic, the responder accepts
   * it by echoing the proposal, and each slot holds the other's id.
   */
  lemma Agreement(a: Profile, b: Profile, pick: nat)
    requires WellFormed(InfoExchange(a.id, a.topics)) && WellFormed(InfoExchange(b.id, b.topics))
    requires Matching(b.topics, a.topics) != []
    ensures var helloA := Encode(InfoExchange(a.id, a.topics)).value;
      var first := Handle(b, State(None, None, None), Success(helloA), true);
      var t := Proposal(Matching(b.topics, a.topics), None, b.id, pick);
      var offer := Encode(Negotiation(true, t)).value;
      var second := Handle(b, first.state, Success(offer), true);
      && t in a.topics && t in b.topics
      && first.written == Some(Encode(InfoExchange(b.id, b.topics)).value)
      && second.written == Some(offer) && second.state.partner == Some(a.id)
      && Exchange(a, Link(true, 2, [first.written.value, offer]), None, pick)
        == Outcome(Success(true), [helloA, offer], Some(b.id))
  {
    var helloA := Encode(InfoExchange(a.id, a.topics)).value;
    var helloB := Encode(InfoExchange(b.id, b.topics)).value;
    var m := Matching(b.topics, a.topics);
    var t := Proposal(m, None, b.id, pick);
    RoundTrip(InfoExchange(a.id, a.topics), []);
    assert helloA + [] == helloA;
    HelloAnswered(b, State(None, None, None), helloA, a.id, a.topics);
    var s1 := State(Some(a.id), Some(a.topics), None);
    MatchingMembers(b.topics, a.topics, t);
    AllTopicsMember(a.topics, t);
    AcceptsIff(s1.id, s1.topics, true, t, b.topics, None);
    AcceptEchoes(b, s1, t);
    var offer := Encode(Negotiation(true, t)).value;
    RoundTrip(InfoExchange(b.id, b.topics), []);
    assert helloB + [] == helloB;
    NegotiationRoundTrip(true, t, []);
    assert offer + [] == offer;
    var link := Link(true, 2, [helloB, offer]);
    assert Offered(a, link) && Remote(a, link) == InfoExchange(b.id, b.topics);
  }

  /**
   * Without a common topic nobody commits: the initiator proposes
   * `(false, "")`, the responder refuses, and both slots stay free.
   */
  lemma NoCommonTopic(a: Profile, b: Profile, pick: nat)
    requires WellFormed(InfoExchange(a.id, a.topics)) && WellFormed(InfoExchange(b.id, b.topics))
    requires Matching(b.topics, a.topics) == []
    ensures var helloA := Encode(InfoExchange(a.id, a.topics)).value;
      var first := Handle(b, State(None, None, None), Success(helloA), true);
      var offer := Encode(Negotiation(false, [])).value;
      var second := Handle(b, first.state, Success(offer), true);
      && first.written == Some(Encode(InfoExchange(b.id, b.topics)).value)
      && second.written == Some(Refusal()) && second.state.partner == None
      && Exchange(a, Link(true, 2, [first.written.value, Refusal()]), None, pick)
        == Outcome(Success(true), [helloA, offer], None)
  {
    var helloA := Encode(InfoExchange(a.id, a.topics)).value;
    var helloB := Encode(InfoExchange(b.id, b.topics)).value;
    RoundTrip(InfoExchange(a.id, a.topics), []);
    assert helloA + [] == helloA;
    HelloAnswered(b, State(None, None, None), helloA, a.id, a.topics);
    RoundTrip(InfoExchange(b.id, b.topics), []);
    assert helloB + [] == helloB;
    RefusalBytes();
    var link := Link(true, 2, [helloB, Refusal()]);
    assert Offered(a, link) && Remote(a, link) == InfoExchange(b.id, b.topics);
  }
}
