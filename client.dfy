/**
 * The initiating side: a discovery loop that finds nearby bracelets by name,
 * skips the ones it talked to recently, and runs the two-round handshake with
 * each of the others.
 *
 * The radio is abstracted away.  Each device found in a scan comes with a
 * `Link` that says how its socket behaves (whether it connects, how many
 * sends it takes, what each receive returns), and with the index the random
 * tie-break would draw.  An operation the link refuses is an `OSError`.
 */
module Client {
  import opened Common
  import opened Packets
  import opened Session

  type Address = string

  /*
   * ---------------------------------------------------------------------
   * The name filter `^hwb-.+$`, applied with `re.match`
   * ---------------------------------------------------------------------
   */

  /**
   * Python's `$` matches at the very end and also just before a final
   * newline, and `.` matches anything but a newline.  So a name matches when,
   * after at most one trailing newline is set aside, it is "hwb-" followed by
   * at least one character and no newline.
   */
  predicate NameMatches(name: string)
    ensures NameMatches(name) ==> |name| > 4 && name[..4] == "hwb-"
    ensures NameMatches(name) ==> forall i :: 0 <= i < |name| - 1 ==> name[i] != '\n'
  {
    var body := WithoutFinalNewline(name);
    |body| > 4 && body[..4] == "hwb-" && NoNewline(body[4..])
  }

  /** What is left for `^hwb-.+` once `$` has taken its optional final newline. */
  function WithoutFinalNewline(name: string): string
  {
    if |name| > 0 && name[|name| - 1] == '\n' then name[..|name| - 1] else name
  }

  predicate NoNewline(s: string)
  {
    forall i :: 0 <= i < |s| ==> s[i] != '\n'
  }

  /** For a name without newlines the pattern is just "starts with hwb- and has more". */
  lemma NameMatchesPlain(name: string)
    requires NoNewline(name)
    ensures NameMatches(name) <==> |name| > 4 && name[..4] == "hwb-"
  {
    assert |name| > 0 ==> name[|name| - 1] != '\n';
  }

  /** One trailing newline is ignored; a newline anywhere else rejects. */
  lemma NameMatchesNewline(name: string)
    ensures NameMatches(name + "\n") <==> NameMatches(name) && NoNewline(name)
  {
    var a := name + "\n";
    assert a[|a| - 1] == '\n' && a[..|a| - 1] == name;
    if |name| > 4 && name[..4] == "hwb-" {
      assert name == "hwb-" + name[4..];
      assert NoNewline(name) <==> NoNewline(name[4..]);
    }
    if NoNewline(name) {
      NameMatchesPlain(name);
    }
  }

  /** Two trailing newlines reject. */
  lemma NameMatchesTwoNewlines(name: string)
    ensures !NameMatches(name + "\n\n")
  {
    var a := name + "\n";
    var b := a + "\n";
    assert b[|b| - 1] == '\n' && b[..|b| - 1] == a;
    if |a| > 4 {
      assert a[4..][|a| - 5] == '\n';
    }
  }

  /** The prefix alone is not enough: "hwb-" itself is rejected. */
  lemma BarePrefixRejected()
    ensures !NameMatches("hwb-") && !NameMatches("hwb-\n") && NameMatches("hwb-1")
  {
    var n := "hwb-\n";
    assert n[..|n| - 1] == "hwb-";
    assert "hwb-1"[..4] == "hwb-";
  }

  /*
   * ---------------------------------------------------------------------
   * The discovery history: a fixed number of generations of addresses
   * ---------------------------------------------------------------------
   */

  type History = seq<seq<Address>>

  /** Whether `addr` occurs in some retained generation. */
  predicate InHistory(h: History, addr: Address)
    ensures |h| == 0 ==> !InHistory(h, addr)
    ensures |h| > 0 ==> (InHistory(h, addr) <==> addr in h[0] || InHistory(h[1..], addr))
  {
    exists k :: 0 <= k < |h| && addr in h[k]
  }

  /**
   * The end of a cycle: the oldest generation is popped from the front (which
   * raises `IndexError` when there is none) and the new one appended.
   */
  function Rotate(h: History, gen: seq<Address>): (r: Result<History>)
    ensures r.Failure? <==> |h| == 0
    ensures r.Failure? ==> r.error == IndexError
    ensures r.Success? ==> |r.value| == |h| && r.value[|h| - 1] == gen
  {
    if |h| == 0 then Failure(IndexError) else Success(h[1..] + [gen])
  }

  /** After a rotation, exactly the newest generation and all but the oldest are retained. */
  lemma RotateInHistory(h: History, gen: seq<Address>, addr: Address)
    requires |h| > 0
    ensures InHistory(Rotate(h, gen).value, addr)
      <==> addr in gen || exists k :: 1 <= k < |h| && addr in h[k]
  {
    var r := Rotate(h, gen).value;
    if addr in gen {
      assert addr in r[|h| - 1];
    }
    if k :| 1 <= k < |h| && addr in h[k] {
      assert r[k - 1] == h[k];
    }
    if InHistory(r, addr) {
      var k :| 0 <= k < |r| && addr in r[k];
      if k < |h| - 1 {
        assert r[k] == h[k + 1];
      }
    }
  }

  /** Several completed cycles in a row, the generations given oldest first. */
  function RotateAll(h: History, gens: seq<seq<Address>>): Result<History>
    decreases |gens|
  {
    if gens == [] then Success(h)
    else match Rotate(h, gens[0])
      case Failure(e) => Failure(e)
      case Success(h') => RotateAll(h', gens[1..])
  }

  /**
   * The history is a sliding window: after at least `depth` cycles it holds
   * exactly the last `depth` generations, and nothing older.
   */
  lemma {:induction false} RotateAllWindow(h: History, gens: seq<seq<Address>>)
    requires |h| > 0
    ensures RotateAll(h, gens).Success?
    ensures |RotateAll(h, gens).value| == |h|
    ensures |gens| >= |h| ==> RotateAll(h, gens).value == gens[|gens| - |h|..]
    ensures |gens| < |h| ==> RotateAll(h, gens).value == h[|gens|..] + gens
    decreases |gens|
  {
    if gens != [] {
      var h' := h[1..] + [gens[0]];
      RotateAllWindow(h', gens[1..]);
      if |gens| < |h| {
        assert h'[|gens| - 1..] == h[|gens|..] + [gens[0]];
        assert [gens[0]] + gens[1..] == gens;
      } else if |gens| - 1 < |h| {
        assert h'[|gens| - 1..] + gens[1..] == [gens[0]] + gens[1..];
      } else {
        assert gens[1..][|gens| - 1 - |h|..] == gens[|gens| - |h|..];
      }
    }
  }

  /** A generation that has been pushed out is forgotten unless seen again since. */
  lemma EvictedAfterDepth(h: History, gens: seq<seq<Address>>, addr: Address)
    requires |h| > 0 && |gens| >= |h|
    requires forall k :: |gens| - |h| <= k < |gens| ==> addr !in gens[k]
    ensures RotateAll(h, gens).Success? && !InHistory(RotateAll(h, gens).value, addr)
  {
    RotateAllWindow(h, gens);
    var r := RotateAll(h, gens).value;
    forall k | 0 <= k < |r| ensures addr !in r[k] {
      assert r[k] == gens[|gens| - |h| + k];
    }
  }

  /** With no generations at all the first completed cycle crashes on the pop. */
  lemma ZeroDepthFails(gen: seq<Address>)
    ensures Rotate([], gen) == Failure(IndexError)
  {
  }

  /*
   * ---------------------------------------------------------------------
   * Matching topics
   * ---------------------------------------------------------------------
   */

  /** The remote topics that are also local, in remote order, duplicates kept. */
  function Matching(remote: seq<Bytes>, local: seq<Bytes>): (r: seq<Bytes>)
    ensures |r| <= |remote|
    ensures forall i :: 0 <= i < |r| ==> r[i] in local
    decreases |remote|
  {
    if remote == [] then []
    else
      var last := remote[|remote| - 1];
      Matching(remote[..|remote| - 1], local) + (if last in local then [last] else [])
  }

  /** A topic is matched exactly when both sides list it. */
  lemma {:induction false} MatchingMembers(remote: seq<Bytes>, local: seq<Bytes>, t: Bytes)
    ensures t in Matching(remote, local) <==> t in remote && t in local
    decreases |remote|
  {
    if remote != [] {
      var init := remote[..|remote| - 1];
      MatchingMembers(init, local, t);
      assert remote == init + [remote[|remote| - 1]];
    }
  }

  /** Each local topic is kept as often as the remote side lists it; nothing else is. */
  lemma {:induction false} MatchingCounts(remote: seq<Bytes>, local: seq<Bytes>, t: Bytes)
    ensures multiset(Matching(remote, local))[t] == if t in local then multiset(remote)[t] else 0
    decreases |remote|
  {
    if remote != [] {
      var init := remote[..|remote| - 1];
      MatchingCounts(init, local, t);
      assert remote == init + [remote[|remote| - 1]];
    }
  }

  /** Matching keeps the remote order: it distributes over concatenation. */
  lemma {:induction false} MatchingAppend(a: seq<Bytes>, b: seq<Bytes>, local: seq<Bytes>)
    ensures Matching(a + b, local) == Matching(a, local) + Matching(b, local)
    decreases |b|
  {
    if b == [] {
      assert a + b == a;
    } else {
      var init := b[..|b| - 1];
      MatchingAppend(a, init, local);
      assert (a + b)[..|a + b| - 1] == a + init;
    }
  }

  /** The loop that builds `matching_topics`. */
  method MatchingTopics(remote: seq<Bytes>, local: seq<Bytes>) returns (m: seq<Bytes>)
    ensures m == Matching(remote, local)
  {
    m := [];
    for i := 0 to |remote|
      invariant m == Matching(remote[..i], local)
    {
      assert remote[..i + 1][..i] == remote[..i];
      if remote[i] in local {
        m := m + [remote[i]];
      }
    }
    assert remote[..|remote|] == remote;
  }

  /*
   * ---------------------------------------------------------------------
   * One handshake (`_exchange_topics`)
   * ---------------------------------------------------------------------
   */

  /** How the socket to one device behaves. */
  datatype Link = Link(connects: bool, sendsAccepted: nat, replies: seq<Bytes>)

  /**
   * What a handshake leaves behind: its result (`Success(b)` for a returned
   * boolean, `Failure(e)` for an exception that escapes it), the packets
   * actually sent, and the session slot.
   */
  datatype Outcome = Outcome(result: Result<bool>, sent: seq<Bytes>, partner: Option<Bytes>)

  /** The answer to the first send, when it is an exchange packet. */
  predicate Offered(me: Profile, link: Link)
  {
    && link.connects
    && Encode(InfoExchange(me.id, me.topics)).Success?
    && link.sendsAccepted >= 1
    && |link.replies| >= 1
    && Decode(link.replies[0]).Success?
    && Decode(link.replies[0]).value.Some?
    && Decode(link.replies[0]).value.value.InfoExchange?
  }

  function Remote(me: Profile, link: Link): Packet
    requires Offered(me, link)
  {
    Decode(link.replies[0]).value.value
  }

  /** Whether this side proposes: a common topic exists and the slot may be taken for the peer. */
  predicate Eligible(m: seq<Bytes>, partner: Option<Bytes>, peer: Bytes)
  {
    |m| > 0 && (IsCommunicating(partner, Some(peer)) || !IsCommunicating(partner, None))
  }

  /** The topic proposed: the drawn element of the matches, or the empty string. */
  function Proposal(m: seq<Bytes>, partner: Option<Bytes>, peer: Bytes, pick: nat): Bytes
  {
    if Eligible(m, partner, peer) then m[pick % |m|] else []
  }

  /** The handshake as a whole, the socket given by `link` and the draw by `pick`. */
  function Exchange(me: Profile, link: Link, partner: Option<Bytes>, pick: nat): (r: Outcome)
    ensures r.result != Failure(OSError)
    ensures |r.sent| <= 2 && (r.sent != [] ==> Encode(InfoExchange(me.id, me.topics)).Success? && r.sent[0] == Encode(InfoExchange(me.id, me.topics)).value)
    ensures r.partner != partner ==> Offered(me, link) && (r.partner == None || r.partner == Some(Remote(me, link).id))
  {
    if !link.connects then Outcome(Success(false), [], partner)
    else match Encode(InfoExchange(me.id, me.topics))
      case Failure(e) => Outcome(Failure(e), [], partner)
      case Success(hello) =>
        if link.sendsAccepted == 0 then Outcome(Success(false), [], partner)
        else if |link.replies| == 0 then Outcome(Success(false), [hello], partner)
        else match Decode(link.replies[0])
          case Failure(e) => Outcome(Failure(e), [hello], partner)
          case Success(p) =>
            if !(p.Some? && p.value.InfoExchange?) then Outcome(Success(true), [hello], partner)
            else Negotiate(link, partner, pick, hello, p.value.id, Matching(p.value.topics, me.topics))
  }

  /** The second round, after the peer's exchange packet named `peer` and `m` matched. */
  function Negotiate(link: Link, partner: Option<Bytes>, pick: nat, hello: Bytes, peer: Bytes, m: seq<Bytes>): (r: Outcome)
    requires link.sendsAccepted >= 1 && |link.replies| >= 1
    ensures r.result != Failure(OSError)
    ensures 1 <= |r.sent| <= 2 && r.sent[0] == hello
    ensures r.partner == partner || r.partner == None || r.partner == Some(peer)
  {
    var communicate := Eligible(m, partner, peer);
    var held := if communicate then Some(peer) else partner;
    var offer := Encode(Negotiation(communicate, Proposal(m, partner, peer, pick))).value;
    if link.sendsAccepted == 1 then Outcome(Success(false), [hello], held)
    else if |link.replies| == 1 then Outcome(Success(false), [hello, offer], held)
    else match Decode(link.replies[1])
      case Failure(e) => Outcome(Failure(e), [hello, offer], held)
      case Success(q) =>
        if !(q.Some? && q.value.Negotiation?) then Outcome(Success(true), [hello, offer], held)
        else if !q.value.communicate && communicate then Outcome(Success(true), [hello, offer], None)
        else Outcome(Success(true), [hello, offer], held)
  }

  /** `False` comes back exactly when the socket raised `OSError`. */
  lemma ExchangeFalseIffOSError(me: Profile, link: Link, partner: Option<Bytes>, pick: nat)
    ensures Exchange(me, link, partner, pick).result == Success(false) <==>
      || !link.connects
      || (Encode(InfoExchange(me.id, me.topics)).Success? && (link.sendsAccepted == 0 || |link.replies| == 0))
      || (Offered(me, link) && (link.sendsAccepted == 1 || |link.replies| == 1))
  {
  }

  /** Unless the peer answered with an exchange packet, the slot is untouched and at most the greeting went out. */
  lemma NotOfferedLeavesSlot(me: Profile, link: Link, partner: Option<Bytes>, pick: nat)
    requires !Offered(me, link)
    ensures Exchange(me, link, partner, pick).partner == partner
    ensures Exchange(me, link, partner, pick).sent == []
      || Exchange(me, link, partner, pick).sent == [Encode(InfoExchange(me.id, me.topics)).value]
  {
  }

  /**
   * What is proposed.  If eligible, the topic is one both sides list and the
   * slot is taken for the peer before the proposal is even sent; if not,
   * `(false, "")` is proposed and the slot stays as it was, whatever follows.
   */
  lemma ProposalSent(me: Profile, link: Link, partner: Option<Bytes>, pick: nat)
    requires Offered(me, link) && link.sendsAccepted >= 2
    ensures var p := Remote(me, link);
      var m := Matching(p.topics, me.topics);
      var o := Exchange(me, link, partner, pick);
      var t := Proposal(m, partner, p.id, pick);
      && |o.sent| == 2
      && o.sent[0] == Encode(InfoExchange(me.id, me.topics)).value
      && o.sent[1] == Encode(Negotiation(Eligible(m, partner, p.id), t)).value
      && (Eligible(m, partner, p.id) ==> t in p.topics && t in me.topics)
      && (!Eligible(m, partner, p.id) ==> t == [] && o.partner == partner)
  {
    var p := Remote(me, link);
    var m := Matching(p.topics, me.topics);
    if Eligible(m, partner, p.id) {
      MatchingMembers(p.topics, me.topics, m[pick % |m|]);
    }
  }

  /**
   * The slot only ever changes to the peer's id, or back to free; it becomes
   * free only when it was held before and the peer answered the proposal
   * with a negotiation packet that refuses.
   */
  lemma SlotChanges(me: Profile, link: Link, partner: Option<Bytes>, pick: nat)
    ensures var o := Exchange(me, link, partner, pick);
      o.partner != partner ==>
        && Offered(me, link)
        && var p := Remote(me, link);
           var m := Matching(p.topics, me.topics);
           && Eligible(m, partner, p.id)
           && (partner == None || partner == Some(p.id))
           && (o.partner == Some(p.id) || o.partner == None)
    ensures var o := Exchange(me, link, partner, pick);
      o.partner == None && partner != None ==>
        && link.sendsAccepted >= 2 && |link.replies| >= 2
        && Decode(link.replies[1]).Success? && Decode(link.replies[1]).value.Some?
        && Decode(link.replies[1]).value.value.Negotiation?
        && !Decode(link.replies[1]).value.value.communicate
  {
  }

  /** An accepted proposal keeps the commit: the slot holds the peer and `True` is returned. */
  lemma AcceptKeepsCommit(me: Profile, link: Link, partner: Option<Bytes>, pick: nat, t: Bytes)
    requires Offered(me, link) && link.sendsAccepted >= 2 && |link.replies| >= 2
    requires Decode(link.replies[1]) == Success(Some(Negotiation(true, t)))
    requires Eligible(Matching(Remote(me, link).topics, me.topics), partner, Remote(me, link).id)
    ensures Exchange(me, link, partner, pick)
      == Outcome(Success(true), Exchange(me, link, partner, pick).sent, Some(Remote(me, link).id))
  {
  }

  /**
   * A reply of the wrong kind in either round is not an error: `True` is
   * returned, and the slot is what it was before that round's reply.
   */
  lemma WrongKindIsTrue(me: Profile, link: Link, partner: Option<Bytes>, pick: nat)
    requires link.connects && Encode(InfoExchange(me.id, me.topics)).Success?
    requires link.sendsAccepted >= 1 && |link.replies| >= 1
    ensures var q := Decode(link.replies[0]);
      q.Success? && (q.value == None || q.value.value.Negotiation?) ==>
        Exchange(me, link, partner, pick)
          == Outcome(Success(true), [Encode(InfoExchange(me.id, me.topics)).value], partner)
    ensures Offered(me, link) && link.sendsAccepted >= 2 && |link.replies| >= 2 ==>
      var q := Decode(link.replies[1]);
      var p := Remote(me, link);
      var eligible := Eligible(Matching(p.topics, me.topics), partner, p.id);
      q.Success? && (q.value == None || q.value.value.InfoExchange?) ==>
        && Exchange(me, link, partner, pick).result == Success(true)
        && Exchange(me, link, partner, pick).partner == (if eligible then Some(p.id) else partner)
  {
  }

  /**
   * A refusal undoes the speculative commit: if this side proposed and the
   * peer answers `communicate = false`, the slot is free afterwards, even when
   * it was held by that peer before the handshake.
   */
  lemma RefusalReleases(me: Profile, link: Link, partner: Option<Bytes>, pick: nat, t: Bytes)
    requires Offered(me, link) && link.sendsAccepted >= 2 && |link.replies| >= 2
    requires Decode(link.replies[1]) == Success(Some(Negotiation(false, t)))
    requires Eligible(Matching(Remote(me, link).topics, me.topics), partner, Remote(me, link).id)
    ensures Exchange(me, link, partner, pick) == Outcome(Success(true), Exchange(me, link, partner, pick).sent, None)
  {
  }

  /**
   * The commit survives every other ending: a send or receive failure, an
   * undecodable answer (the exception escapes with the slot still taken), or
   * an answer that is not a negotiation packet.
   */
  lemma CommitSurvivesFailure(me: Profile, link: Link, partner: Option<Bytes>, pick: nat)
    requires Offered(me, link)
    requires Eligible(Matching(Remote(me, link).topics, me.topics), partner, Remote(me, link).id)
    requires link.sendsAccepted < 2 || |link.replies| < 2 || Decode(link.replies[1]).Failure?
      || Decode(link.replies[1]).value == None || Decode(link.replies[1]).value.value.InfoExchange?
    ensures Exchange(me, link, partner, pick).partner == Some(Remote(me, link).id)
    ensures Exchange(me, link, partner, pick).result.Failure? ==> Decode(link.replies[1]).Failure?
  {
  }

  /*
   * ---------------------------------------------------------------------
   * One discovery cycle (`_run_once`)
   * ---------------------------------------------------------------------
   */

  /** A device as a scan reports it, with the link to it and the draw for its handshake. */
  datatype Device = Device(addr: Address, name: string, link: Link, pick: nat)

  /** Whether the cycle talks to `d`: the name matches and the address is not remembered. */
  predicate Candidate(d: Device, h: History)
  {
    NameMatches(d.name) && !InHistory(h, d.addr)
  }

  /** The addresses of the candidates in scan order. */
  function Candidates(ds: seq<Device>, h: History): seq<Address>
    decreases |ds|
  {
    if ds == [] then []
    else Candidates(ds[..|ds| - 1], h) + (if Candidate(ds[|ds| - 1], h) then [ds[|ds| - 1].addr] else [])
  }

  /**
   * The scan loop so far: the new generation (or the exception that ended
   * the loop), the slot, and the addresses handshaken with in order.
   */
  datatype Sweep = Sweep(gen: Result<seq<Address>>, partner: Option<Bytes>, contacted: seq<Address>)

  function Scan(me: Profile, ds: seq<Device>, h: History, partner: Option<Bytes>): (r: Sweep)
    ensures |r.contacted| <= |ds|
    ensures r.gen.Success? ==> forall a :: a in r.gen.value ==> a in r.contacted
    decreases |ds|
  {
    if ds == [] then Sweep(Success([]), partner, [])
    else ScanStep(me, Scan(me, ds[..|ds| - 1], h, partner), ds[|ds| - 1], h)
  }

  /** One turn of the scan loop: skip, or handshake and record on `True`. */
  function ScanStep(me: Profile, s: Sweep, d: Device, h: History): (r: Sweep)
    ensures r.contacted == s.contacted || r.contacted == s.contacted + [d.addr]
    ensures s.gen.Failure? ==> r == s
    ensures r.gen.Success? ==> s.gen.Success? && (r.gen.value == s.gen.value || r.gen.value == s.gen.value + [d.addr])
  {
    if s.gen.Failure? || !Candidate(d, h) then s
    else
      var o := Exchange(me, d.link, s.partner, d.pick);
      var gen := match o.result
        case Failure(e) => Failure(e)
        case Success(ok) => Success(if ok then s.gen.value + [d.addr] else s.gen.value);
      Sweep(gen, o.partner, s.contacted + [d.addr])
  }

  lemma ScanPrefix(me: Profile, ds: seq<Device>, i: nat, h: History, partner: Option<Bytes>)
    requires i < |ds|
    ensures Scan(me, ds[..i + 1], h, partner) == ScanStep(me, Scan(me, ds[..i], h, partner), ds[i], h)
  {
    assert ds[..i + 1][..i] == ds[..i];
  }

  /**
   * The scan talks to candidates only, in scan order: what it contacted is
   * always a prefix of the candidates (also when a handshake raised and the
   * rest was skipped), and a completed scan talked to every one of them.
   */
  lemma {:induction false} ScanContactsCandidates(me: Profile, ds: seq<Device>, h: History, partner: Option<Bytes>)
    ensures var c := Scan(me, ds, h, partner).contacted;
      |c| <= |Candidates(ds, h)| && c == Candidates(ds, h)[..|c|]
    ensures Scan(me, ds, h, partner).gen.Success? ==> Scan(me, ds, h, partner).contacted == Candidates(ds, h)
    decreases |ds|
  {
    if ds != [] {
      var init := ds[..|ds| - 1];
      ScanContactsCandidates(me, init, h, partner);
      var ci := Candidates(init, h);
      assert Candidates(ds, h)[..|ci|] == ci;
    }
  }

  /**
   * Every address of the new generation belongs to a scanned device whose
   * name matched and which was not remembered: a cycle never re-records an
   * address the history still holds.
   */
  lemma {:induction false} ScanGenerationFresh(me: Profile, ds: seq<Device>, h: History, partner: Option<Bytes>, a: Address)
    requires Scan(me, ds, h, partner).gen.Success?
    requires a in Scan(me, ds, h, partner).gen.value
    ensures exists k :: 0 <= k < |ds| && ds[k].addr == a && NameMatches(ds[k].name)
    ensures !InHistory(h, a)
    decreases |ds|
  {
    var init := ds[..|ds| - 1];
    var s := Scan(me, init, h, partner);
    if a in s.gen.value {
      ScanGenerationFresh(me, init, h, partner, a);
      var k :| 0 <= k < |init| && init[k].addr == a && NameMatches(init[k].name);
      assert ds[k] == init[k];
    } else {
      assert ds[|ds| - 1].addr == a;
    }
  }

  /** Once a handshake has raised, the rest of the scan is skipped. */
  lemma {:induction false} ScanStopsAtFailure(me: Profile, ds: seq<Device>, i: nat, h: History, partner: Option<Bytes>)
    requires i <= |ds| && Scan(me, ds[..i], h, partner).gen.Failure?
    ensures Scan(me, ds, h, partner) == Scan(me, ds[..i], h, partner)
    decreases |ds| - i
  {
    if i < |ds| {
      assert ds[..i + 1][..i] == ds[..i];
      ScanStopsAtFailure(me, ds, i + 1, h, partner);
    } else {
      assert ds[..i] == ds;
    }
  }

  /** A device is recorded exactly when its handshake returned true. */
  lemma RecordedWhenTrue(me: Profile, ds: seq<Device>, d: Device, h: History, partner: Option<Bytes>)
    requires Scan(me, ds, h, partner).gen.Success? && Candidate(d, h)
    ensures var s := Scan(me, ds, h, partner);
      var o := Exchange(me, d.link, s.partner, d.pick);
      var s' := Scan(me, ds + [d], h, partner);
      && s'.partner == o.partner
      && (o.result == Success(true) ==> s'.gen == Success(s.gen.value + [d.addr]))
      && (o.result == Success(false) ==> s'.gen == s.gen)
      && (o.result.Failure? ==> s'.gen == Failure(o.result.error))
  {
    assert (ds + [d])[..|ds + [d]| - 1] == ds;
  }

  /** The cycle's effect: the result, the new history and the new slot. */
  datatype Cycle = Cycle(result: Result<()>, history: History, partner: Option<Bytes>)

  function RunCycle(me: Profile, running: bool, ds: seq<Device>, h: History, partner: Option<Bytes>): (r: Cycle)
    ensures |r.history| == |h|
    ensures r.result.Failure? ==> r.history == h
    ensures partner != None ==> r == Cycle(Success(()), h, partner)
  {
    if !running || IsCommunicating(partner, None) then Cycle(Success(()), h, partner)
    else
      var s := Scan(me, ds, h, partner);
      match s.gen
      case Failure(e) => Cycle(Failure(e), h, s.partner)
      case Success(gen) =>
        match Rotate(h, gen)
        case Failure(e) => Cycle(Failure(e), h, s.partner)
        case Success(h') => Cycle(Success(()), h', s.partner)
  }

  /** A stopped or busy discoverer does nothing: no handshake, no rotation. */
  lemma IdleCycle(me: Profile, running: bool, ds: seq<Device>, h: History, partner: Option<Bytes>)
    requires !running || partner != None
    ensures RunCycle(me, running, ds, h, partner) == Cycle(Success(()), h, partner)
  {
  }

  /**
   * A completed cycle keeps the number of generations and retains what the
   * scan recorded; with zero generations a cycle that gets that far fails.
   */
  lemma CycleKeepsDepth(me: Profile, ds: seq<Device>, h: History, partner: Option<Bytes>, a: Address)
    requires partner == None
    requires Scan(me, ds, h, partner).gen.Success?
    ensures var c := RunCycle(me, true, ds, h, partner);
      && (|h| == 0 <==> c.result == Failure(IndexError))
      && |c.history| == |h|
      && (|h| > 0 && a in Scan(me, ds, h, partner).gen.value ==> InHistory(c.history, a))
  {
    if |h| > 0 {
      RotateInHistory(h, Scan(me, ds, h, partner).gen.value, a);
    }
  }

  /*
   * ---------------------------------------------------------------------
   * The discoverer object
   * ---------------------------------------------------------------------
   */

  /** The parameters `DeviceDiscoverer()` takes when given none, as the program's `main` calls it. */
  const DefaultSearchDuration := 8
  const DefaultHistoryDepth := 10

  class DeviceDiscoverer {
    var running: bool
    var searchDuration: int
    var history: History

    /** `range` of a negative depth is empty, so a negative depth keeps no generations. */
    constructor (searchDuration: int, historyDepth: int)
      ensures running && this.searchDuration == searchDuration
      ensures |history| == (if historyDepth < 0 then 0 else historyDepth)
      ensures forall k :: 0 <= k < |history| ==> history[k] == []
      ensures forall a :: !InHistory(history, a)
    {
      running := true;
      this.searchDuration := searchDuration;
      history := seq(if historyDepth < 0 then 0 else historyDepth, _ => []);
    }

    /** `DeviceDiscoverer()`: an eight-second scan and ten empty generations. */
    constructor Default()
      ensures running && searchDuration == DefaultSearchDuration
      ensures |history| == DefaultHistoryDepth
      ensures forall k :: 0 <= k < |history| ==> history[k] == []
    {
      running := true;
      searchDuration := DefaultSearchDuration;
      history := seq(DefaultHistoryDepth, _ => []);
    }

    /** `_is_in_history`: the loop over the generations. */
    method IsInHistory(addr: Address) returns (r: bool)
      ensures r <==> exists k :: 0 <= k < |history| && addr in history[k]
    {
      for i := 0 to |history|
        invariant forall k :: 0 <= k < i ==> addr !in history[k]
      {
        if addr in history[i] {
          return true;
        }
      }
      return false;
    }

    /**
     * `_exchange_topics` against the device behind `link`.  The sent packets
     * are returned so that a caller can see what went over the air.
     */
    method ExchangeTopics(me: Profile, link: Link, session: Slot, pick: nat) returns (r: Result<bool>, sent: seq<Bytes>)
      modifies session
      ensures Outcome(r, sent, session.partner) == Exchange(me, link, old(session.partner), pick)
    {
      sent := [];
      if !link.connects {
        return Success(false), sent;
      }
      var hello := ToBytes(InfoExchange(me.id, me.topics));
      if hello.Failure? {
        return Failure(hello.error), sent;
      }
      if link.sendsAccepted == 0 {
        return Success(false), sent;
      }
      sent := sent + [hello.value];
      if |link.replies| == 0 {
        return Success(false), sent;
      }
      var answer := FromBytes(link.replies[0]);
      if answer.Failure? {
        return Failure(answer.error), sent;
      }
      if !(answer.value.Some? && answer.value.value.InfoExchange?) {
        return Success(true), sent;
      }
      var peer := answer.value.value;
      var matching := MatchingTopics(peer.topics, me.topics);
      ghost var before := session.partner;
      assert Exchange(me, link, before, pick) == Negotiate(link, before, pick, hello.value, peer.id, matching);
      var busyWithPeer := session.Communicating(Some(peer.id));
      var busy := session.Communicating(None);
      var communicate: bool;
      var topic: Bytes;
      if |matching| > 0 && (busyWithPeer || !busy) {
        topic := matching[pick % |matching|];
        communicate := true;
        session.Start(peer.id);
      } else {
        topic := [];
        communicate := false;
      }
      assert communicate == Eligible(matching, before, peer.id);
      var offer := ToBytes(Negotiation(communicate, topic));
      if link.sendsAccepted == 1 {
        return Success(false), sent;
      }
      sent := sent + [offer.value];
      if |link.replies| == 1 {
        return Success(false), sent;
      }
      var reply := FromBytes(link.replies[1]);
      if reply.Failure? {
        return Failure(reply.error), sent;
      }
      if !(reply.value.Some? && reply.value.value.Negotiation?) {
        return Success(true), sent;
      }
      if !reply.value.value.communicate && communicate {
        session.End();
      }
      return Success(true), sent;
    }

    /**
     * `_run_once` on the devices a scan reported.  An exception from a
     * handshake other than `OSError`, or the pop from an empty history,
     * ends the cycle with the history as it was.  `session` is the slot of
     * the module `main` that `_run_once` imports, which is not the slot the
     * answering side uses when the program is started as a script.
     */
    method RunOnce(me: Profile, found: seq<Device>, session: Slot) returns (r: Result<()>)
      modifies this, session
      ensures Cycle(r, history, session.partner)
        == RunCycle(me, old(running), found, old(history), old(session.partner))
      ensures running == old(running) && searchDuration == old(searchDuration)
    {
      var busy := session.Communicating(None);
      if !(running && !busy) {
        return Success(());
      }
      ghost var start := session.partner;
      var gen: seq<Address> := [];
      ghost var contacted: seq<Address> := [];
      for i := 0 to |found|
        invariant Scan(me, found[..i], history, start) == Sweep(Success(gen), session.partner, contacted)
        invariant history == old(history) && running == old(running) && searchDuration == old(searchDuration)
      {
        var d := found[i];
        ScanPrefix(me, found, i, history, start);
        var remembered := IsInHistory(d.addr);
        if NameMatches(d.name) && !remembered {
          var ok, _ := ExchangeTopics(me, d.link, session, d.pick);
          contacted := contacted + [d.addr];
          if ok.Failure? {
            ScanStopsAtFailure(me, found, i + 1, history, start);
            return Failure(ok.error);
          }
          if ok.value {
            gen := gen + [d.addr];
          }
        }
      }
      assert found[..|found|] == found;
      if |history| == 0 {
        return Failure(IndexError);
      }
      history := history[1..] + [gen];
      return Success(());
    }
  }
}
