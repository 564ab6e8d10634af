/**
 * The station's own identity and the session slot: the module-level variable
 * holding the id of the peer this bracelet is currently talking to.
 *
 * The slot is a global of the module that defines it.  Started as a script,
 * the program has two copies of that module: the answering side uses the
 * script's own copy, and the discovery loop imports the module under its
 * name and so gets a second copy with a second slot.  A `Slot` object is one
 * such copy; each side is handed its own.
 */
module Session {
  import opened Common
  import opened Utf8
  import Packets

  /** What a station announces about itself: its id and its topics (as UTF-8). */
  datatype Profile = Profile(id: Bytes, topics: seq<Bytes>)

  /** The bytes of an ASCII string. */
  function Ascii(s: string): (b: Bytes)
    requires forall i :: 0 <= i < |s| ==> s[i] < 128 as char
    ensures |b| == |s| && IsAscii(b)
    ensures forall i :: 0 <= i < |s| ==> b[i] == s[i] as int
  {
    seq(|s|, i requires 0 <= i < |s| => s[i] as int)
  }

  /** The id this bracelet announces. */
  function DefaultId(): Bytes { Ascii("test_hwb") }

  /** "Fußball" in UTF-8: the sharp s is the two bytes C3 9F. */
  function Football(): Bytes { Ascii("Fu") + [0xC3, 0x9F] + Ascii("ball") }

  /** The topics this bracelet offers, in the order it announces them. */
  function DefaultTopics(): seq<Bytes> { [Football(), Ascii("Billard"), Ascii("Klarinette")] }

  function DefaultProfile(): Profile { Profile(DefaultId(), DefaultTopics()) }

  /**
   * The built-in profile is one the codec carries unchanged: its id and every
   * topic fit their length bytes and every topic is well-formed UTF-8.
   */
  lemma DefaultProfileIsWellFormed()
    ensures Packets.WellFormed(Packets.InfoExchange(DefaultId(), DefaultTopics()))
  {
    var ts := DefaultTopics();
    FootballIsWellFormed();
    AsciiIsWellFormed(Ascii("Billard"));
    AsciiIsWellFormed(Ascii("Klarinette"));
    assert ts[2..] == [Ascii("Klarinette")] && ts[1..] == [Ascii("Billard"), Ascii("Klarinette")];
    assert Packets.AllTopics(ts[2..][1..]);
    assert Packets.AllTopics(ts[2..]);
    assert Packets.AllTopics(ts[1..]);
  }

  /** The one non-ASCII topic: eight bytes, well-formed. */
  lemma FootballIsWellFormed()
    ensures |Football()| == 8 && IsWellFormed(Football())
  {
    var tail := [0xC3, 0x9F] + Ascii("ball");
    AsciiIsWellFormed(Ascii("Fu"));
    SharpSIsWellFormed(Ascii("ball"));
    AppendWellFormed(Ascii("Fu"), tail);
    assert Football() == Ascii("Fu") + tail;
  }

  /** The two-byte sequence of the sharp s in front of ASCII text is well-formed. */
  lemma SharpSIsWellFormed(rest: Bytes)
    requires IsAscii(rest)
    ensures IsWellFormed([0xC3, 0x9F] + rest)
  {
    var s := [0xC3, 0x9F] + rest;
    AsciiIsWellFormed(rest);
    assert LeadWidth(s) == 2;
    assert s[2..] == rest;
  }

  /**
   * The question `is_communicating` answers.  Without a peer: is anybody
   * holding the slot?  With a peer: is exactly that peer holding it?
   */
  predicate IsCommunicating(partner: Option<Bytes>, peer: Option<Bytes>)
    ensures IsCommunicating(partner, peer) ==> partner != None
    ensures partner == None ==> !IsCommunicating(partner, peer)
  {
    match peer
    case None => partner != None
    case Some(_) => partner == peer
  }

  /**
   * Both handlers may take the slot for `peer` when it is free or when it is
   * already held by that same peer, and never while another peer holds it.
   */
  lemma MayTakeSlot(partner: Option<Bytes>, peer: Bytes)
    ensures IsCommunicating(partner, Some(peer)) || !IsCommunicating(partner, None)
      <==> partner == None || partner == Some(peer)
    ensures IsCommunicating(partner, None) && !IsCommunicating(partner, Some(peer))
      <==> partner != None && partner != Some(peer)
  {
  }

  /** `_current_communication_partner` with its three accessors. */
  class Slot {
    var partner: Option<Bytes>

    /** The module starts out talking to nobody. */
    constructor ()
      ensures partner == None
      ensures forall peer :: !IsCommunicating(partner, peer)
    {
      partner := None;
    }

    /** `start_communication`: takes the slot for `peer` whoever held it before. */
    method Start(peer: Bytes)
      modifies this
      ensures partner == Some(peer)
      ensures IsCommunicating(partner, None) && IsCommunicating(partner, Some(peer))
      ensures forall other :: other != peer ==> !IsCommunicating(partner, Some(other))
    {
      partner := Some(peer);
    }

    /** `end_communication`: frees the slot whoever held it. */
    method End()
      modifies this
      ensures partner == None
      ensures forall peer :: !IsCommunicating(partner, peer)
    {
      partner := None;
    }

    /** `is_communicating`, asked of the current slot. */
    method Communicating(peer: Option<Bytes>) returns (r: bool)
      ensures peer == None ==> (r <==> partner != None)
      ensures peer != None ==> (r <==> partner == peer)
    {
      r := IsCommunicating(partner, peer);
    }
  }
}
