# hello-world-braclet in Dafny

A model of the core of hello-world-braclet. This is a Bluetooth "topic bracelet". It finds nearby bracelets and tells them its interests ("topics"). When both sides share a topic, they agree to talk about it. The model covers three parts:

- **The packet codec** (`packets.py`) is modelled in `packets.dfy`, module `Packets`. There are two packet kinds:
  - An exchange packet: tag 1, a length-prefixed id, a topic count, and length-prefixed UTF-8 topics.
  - A negotiation packet: tag 2, a flag byte, and a length-prefixed topic.
  - `Encode` and `Decode` are the specification functions. The loop-based `to_bytes`/`from_bytes` are methods proved equal to them.
  - Strict UTF-8 validity (the check Python's `bytes.decode()` makes) is in `utf8.dfy`, module `Utf8`.
- **The initiator** (`client.py`) is modelled in `client.dfy`, module `Client`. It covers:
  - the name filter;
  - the discovery history, a sliding window of generations of addresses;
  - the two-round handshake `_exchange_topics`, with its speculative commit and its rollback on refusal;
  - one discovery cycle, `_run_once`.
  - `DeviceDiscoverer` is a class whose `history` field the methods reassign. `Exchange`, `Scan` and `RunCycle` are the pure specifications its methods are proved against.
- **The responder and the session slot** (`main.py`):
  - `session.dfy`, module `Session`, holds the bracelet's own id and topics and the module-level slot `_current_communication_partner` (class `Slot`).
  - `responder.dfy`, module `Responder`, holds the per-connection `ConnectionData`, the callback object it hangs on (`Connection`), `on_info_exchange`, `on_negotionation` and `io_cb`. `Handle` is their pure specification.
  - `handshake.dfy`, module `Handshake`, runs the two sides against each other.

Conventions:
- Bytes are integers below 256. A topic is its UTF-8 bytes. This is faithful for the strings this program handles: the literals at `main.py:10` and topics produced by a strict `.decode()`. Both have a UTF-8 form, and distinct strings of this kind have distinct UTF-8 bytes, so the source's `in` tests keep their meaning. A Python `str` in general can hold a lone surrogate, which has no UTF-8 form, but no such string reaches the code modelled here.
- Python exceptions are values (`Common.Exception`) carried in a `Result`.
- The socket of one handshake is a `Client.Link` value. It says whether `connect` succeeds, how many `send`s succeed and what each `recv` returns. An operation the link refuses raises `OSError`.
- `random.randrange(0, n)` is an index `pick` given with each device. The element drawn is `pick % n`, so every index can be drawn.
- A read in `io_cb` is given as its outcome (bytes or `OSError`). A write is given as whether it succeeds.

The model follows the code as written; in particular:
- A tag other than 1 or 2 decodes to `None`, not to an error (`packets.py:7-13`).
- A declared length past the end of the buffer silently yields a shorter field. Only a missing tag, flag, length or count byte raises `IndexError` (`packets.py:8`, `packets.py:27-40`, `packets.py:75-79`).
- `_exchange_topics` catches only `OSError` (`client.py:106`). An `IndexError` or `UnicodeDecodeError` from decoding a reply therefore escapes `_run_once`. This includes an empty `recv`. The cycle ends without rotating the history, and a commit made before the failure stays in place (`Client.CommitSurvivesFailure`). The exception also escapes `asyncio.run` and the loop in `run` (`client.py:31-33`), and `main()` catches only `KeyboardInterrupt` (`main.py:110-116`), so discovery stops for good, not just for this cycle.
- A reply of the wrong packet kind makes `_exchange_topics` return `True` (`client.py:71-73`, `client.py:95-97`). That peer is therefore recorded in the history (`Client.WrongKindIsTrue`).
- The name pattern is `^hwb-.+$` (`client.py:19`). It needs at least one character after the prefix and accepts one trailing newline.
- The responder never frees the slot (`Responder.NeverReleases`).
- The two sides do not share a slot. Started as `python main.py` (`main.py:119-120`), the program runs `main.py` as the module `__main__`, and `io_cb` is handed over from there (`main.py:106`), so the responder uses `__main__._current_communication_partner`. `_run_once` runs `from main import ...` (`client.py:36`). This loads `main.py` a second time, as the module `main`, with its own `_current_communication_partner` (`main.py:87`). So the initiator and the responder never see each other's commitment. In the model, `Client.DeviceDiscoverer.RunOnce` and `Responder.IoCb` each take a `Session.Slot`; with the program as it is started, these are two different objects.

## Model

| member | source | states |
|---|---|---|
| `Packets.Encode` | packets.py:15-97 | `to_bytes` raises (OverflowError) exactly for an exchange packet with more than 255 topics; otherwise the first byte is the packet's tag |
| `Packets.Decode` | packets.py:7-13 | an empty buffer raises IndexError; nothing but IndexError and UnicodeDecodeError is raised; the result is "no packet" exactly when the tag is neither 1 nor 2; a decoded packet's kind matches its tag |
| `Packets.DecodeTopics` | packets.py:33-42 | the topic loop raises nothing but IndexError (a missing length byte) and UnicodeDecodeError (a topic that is not UTF-8); `Packets.DecodedTopics` gives the topics it yields |
| `Packets.DecodeInfoExchange` | packets.py:24-44 | `InfoExchangePacket.from_bytes`: fewer than two bytes raise IndexError; only IndexError and UnicodeDecodeError are raised; a decoded id is at most 255 bytes |
| `Packets.DecodeNegotiation` | packets.py:74-81 | `NegotiationPacket.from_bytes`: IndexError exactly below two bytes; only IndexError and UnicodeDecodeError are raised; the topic is at most 255 bytes and no longer than what follows the length byte |
| `Packets.InfoExchangeToBytes` | packets.py:52-67 | the loop that grows the buffer field by field produces exactly `Encode` of the exchange packet, or OverflowError |
| `Packets.InfoExchangeFromBytes` | packets.py:24-44 | the loop that reslices the input and fills the topic list by index gives exactly the exchange decoding, including every IndexError and UnicodeDecodeError |
| `Packets.ToBytes` | packets.py:15-97 | `to_bytes` dispatched on the packet's class equals `Encode` |
| `Packets.FromBytes` | packets.py:7-81 | `BasePacket.from_bytes` equals `Decode` |
| `Packets.EncodeTopicsAppend` | packets.py:62-65 | encoding a topic list is encoding its parts in order |
| `Packets.DecodedTopics` | packets.py:33-42 | the topic loop yields exactly `count` topics, each fitting its length byte and valid UTF-8, or fails with IndexError or UnicodeDecodeError only |
| `Packets.DecodedIsWellFormed` | packets.py:7-81 | every decoded packet is one that round-trips, and decoding raises nothing but IndexError and UnicodeDecodeError |
| `Packets.DecodeEncodedTopics` | packets.py:33-65 | decoding reads back every topic the encoder wrote, whatever bytes follow |
| `Packets.RoundTrip` | packets.py:7-97 | a packet with id ≤ 255 bytes, ≤ 255 topics and topics of ≤ 255 bytes of valid UTF-8 encodes, and decodes back to itself with any trailing bytes ignored |
| `Packets.InfoExchangeRoundTrip` | packets.py:24-67 | the round trip for exchange packets, trailing bytes ignored |
| `Packets.NegotiationRoundTrip` | packets.py:74-97 | the round trip for negotiation packets, trailing bytes ignored |
| `Packets.DecodeIsStable` | packets.py:7-97 | whatever decodes re-encodes to bytes that decode to the same packet |
| `Packets.TopicFieldAt` | packets.py:62-65 | the k-th topic's length byte is min(length, 255) and the bytes behind it are that many leading bytes of the topic |
| `Packets.InfoExchangeLayout` | packets.py:52-67 | an exchange packet is tag 1, then min(len(id), 255), then the clamped id, then the count, then the topic fields |
| `Packets.NegotiationLayout` | packets.py:88-97 | a negotiation packet is tag 2, then the flag as 1 or 0, then min(len(topic), 255), then the clamped topic |
| `Packets.NegotiationFlagNormalised` | packets.py:75-93 | any non-zero flag byte decodes as "communicate", so re-encoding gives the same bytes with the flag normalised to 0x01 |
| `Packets.ShortNegotiationTopic` | packets.py:77-80 | a topic length beyond the end of a negotiation gives the shorter topic, not an error |
| `Packets.NegotiationIndexError` | packets.py:75-77 | a negotiation raises IndexError exactly when it has fewer than three bytes |
| `Packets.ShortIdFails` | packets.py:27-33 | an id shorter than its declared length is cut short, and then the topic count byte is missing: IndexError |
| `Packets.DeclaredTopicsMissing` | packets.py:33-37 | announcing more topics than are present raises IndexError at the missing length byte |
| `Packets.ShortLastTopic` | packets.py:36-42 | a last topic shorter than its declared length is read short, without an error |
| `Packets.ShortTopic` | packets.py:37-40 | a single topic shorter than its length byte decodes to the bytes that are there |
| `Packets.ClampSplitsCharacter` | packets.py:79-96 | clamping counts bytes, so a topic ending in a two-byte character at byte 256 is cut inside it and its packet fails to decode (UnicodeDecodeError) |
| `Session.DefaultProfileIsWellFormed` | main.py:10-11 | the built-in id `test_hwb` and topics Fußball, Billard, Klarinette fit the codec's limits and are valid UTF-8 |
| `Session.FootballIsWellFormed` | main.py:10 | "Fußball" is eight UTF-8 bytes, the sharp s being C3 9F, and is well-formed UTF-8 |
| `Session.MayTakeSlot` | main.py:97-101 | "with the peer or not communicating" holds exactly when the slot is free or held by that peer; "communicating but not with the peer" exactly when another peer holds it |
| `Session.IsCommunicating` | main.py:97-101 | what `is_communicating` answers of a slot value: a true answer needs a partner to be set, and a free slot answers false to every question |
| `Session.Slot.constructor` | main.py:87 | the slot starts free and `is_communicating` is false for every question |
| `Session.Slot.Start` | main.py:89-91 | `start_communication` sets the partner unconditionally; afterwards only that peer is reported |
| `Session.Slot.End` | main.py:93-95 | `end_communication` frees the slot whoever held it |
| `Session.Slot.Communicating` | main.py:97-101 | without `with_`, whether a partner is set; with `with_`, whether the partner is exactly that peer |
| `Client.NameMatches` | client.py:19 | what `_NAME_PATTERN.match` accepts: a matching name starts with "hwb-", has a character after it, and has no newline except possibly a final one |
| `Client.NameMatchesPlain` | client.py:19-43 | for a name without newlines, the filter accepts exactly "hwb-" followed by at least one character |
| `Client.NameMatchesNewline` | client.py:19-43 | one trailing newline is ignored by `$`, and a newline anywhere else rejects |
| `Client.NameMatchesTwoNewlines` | client.py:19-43 | two trailing newlines reject |
| `Client.BarePrefixRejected` | client.py:19 | "hwb-" alone (with or without a final newline) is rejected and "hwb-1" is accepted |
| `Client.InHistory` | client.py:49-53 | whether an address is remembered: never by an empty history, and otherwise exactly when the oldest generation or one of the later ones holds it |
| `Client.Rotate` | client.py:46-47 | the pop raises IndexError exactly on an empty history; otherwise the number of generations is kept and the new one is last |
| `Client.RotateInHistory` | client.py:46-53 | after a rotation an address is remembered exactly if it is in the new generation or in one of the retained older ones |
| `Client.RotateAllWindow` | client.py:29-47 | the history is a sliding window: after n cycles it holds the last `depth` generations (padded by the older ones while n < depth) and never changes size |
| `Client.EvictedAfterDepth` | client.py:46-53 | an address not seen in the last `depth` cycles is no longer reported |
| `Client.ZeroDepthFails` | client.py:29-46 | with `history_depth` 0 the first completed cycle raises IndexError |
| `Client.Matching` | client.py:77-80 | the matched topics: no more than the remote side listed, and every one of them a local topic |
| `Client.MatchingMembers` | client.py:77-80 | a topic is matched exactly when both sides list it |
| `Client.MatchingCounts` | client.py:77-80 | a local topic is matched as often as the remote side lists it, any other topic never |
| `Client.MatchingAppend` | client.py:77-80 | matching keeps the remote order |
| `Client.MatchingTopics` | client.py:77-80 | the loop that appends to `matching_topics` computes `Matching` |
| `Client.Exchange` | client.py:62-107 | `_exchange_topics` as a value: OSError never escapes, at most two packets are sent and the first is the local exchange packet, and the slot changes only after the peer answered with an exchange packet, to that peer's id or to free |
| `Client.Negotiate` | client.py:82-105 | the second round: OSError never escapes, the greeting and at most the proposal are sent, and the slot ends free, as before, or held by the peer |
| `Client.ExchangeFalseIffOSError` | client.py:62-107 | `_exchange_topics` returns False exactly when connect, a send or a receive raised OSError |
| `Client.NotOfferedLeavesSlot` | client.py:63-73 | unless the peer answers with an exchange packet the slot is untouched and at most the greeting went out |
| `Client.ProposalSent` | client.py:66-91 | the greeting then the proposal are sent; an eligible proposal names a topic both sides list; an ineligible one is `(false, "")` and leaves the slot as it was |
| `Client.SlotChanges` | client.py:82-104 | the slot only changes after an exchange packet, when a common topic exists and the slot was free or the peer's; it then holds the peer's id, or is free, and it becomes free only when the peer's answer to the proposal is a negotiation packet that refuses |
| `Client.AcceptKeepsCommit` | client.py:93-105 | a proposal answered with `communicate` true keeps the commit: True is returned and the slot holds the peer's id |
| `Client.WrongKindIsTrue` | client.py:66-105 | a first reply that is not an exchange packet, or a second reply that is not a negotiation packet, makes the handshake return True; the slot is as it was before that reply |
| `Client.RefusalReleases` | client.py:99-105 | a refusal after a commit frees the slot and returns True |
| `Client.CommitSurvivesFailure` | client.py:93-107 | after a commit, a failed send or receive, an undecodable answer (whose exception escapes) or an answer of the wrong kind leaves the slot held by the peer |
| `Client.Scan` | client.py:41-45 | the scan loop: it contacts at most one address per device found, and every recorded address is one it contacted |
| `Client.ScanStep` | client.py:42-45 | one turn of the loop contacts at most the one device, records at most its address, and does nothing once an exception has escaped |
| `Client.RunCycle` | client.py:35-47 | one cycle keeps the number of generations, leaves the history alone when it raises, and does nothing while the slot is held |
| `Client.ScanContactsCandidates` | client.py:42-44 | every scan, including one cut short by a handshake that raised, handshakes only with devices whose name matches and whose address is not remembered, in scan order (a prefix of the candidates); a completed scan handshakes with all of them |
| `Client.ScanGenerationFresh` | client.py:42-45 | every address of the new generation belongs to a scanned device with a matching name and was not remembered |
| `Client.ScanStopsAtFailure` | client.py:42-45 | once a handshake raises, the rest of the scan is skipped |
| `Client.RecordedWhenTrue` | client.py:44-45 | a candidate's address enters the new generation exactly when its handshake returned True; an exception ends the scan |
| `Client.IdleCycle` | client.py:40 | a stopped or busy discoverer makes no handshake and leaves the history alone |
| `Client.CycleKeepsDepth` | client.py:40-47 | a completed cycle keeps the number of generations and remembers what it recorded; with no generations it raises IndexError |
| `Client.DeviceDiscoverer.constructor` | client.py:26-29 | the history starts as `history_depth` empty generations (none for a negative depth) and remembers nothing |
| `Client.DeviceDiscoverer.Default` | client.py:26-29 | `DeviceDiscoverer()` as `main()` builds it: scan duration 8 and ten empty generations |
| `Client.DeviceDiscoverer.IsInHistory` | client.py:49-53 | the loop returns True exactly when some generation contains the address |
| `Client.DeviceDiscoverer.ExchangeTopics` | client.py:55-107 | the result, the packets sent and the new slot are those of `Exchange` |
| `Client.DeviceDiscoverer.RunOnce` | client.py:35-47 | the result, the new history and the new slot are those of `RunCycle`; the running flag and search duration are unchanged |
| `Responder.RefusalBytes` | main.py:49-51 | the refusal `(False, "")` is the three bytes 2, 0, 0 and decodes to itself |
| `Responder.Accepts` | main.py:47-79 | the decision of `on_negotionation`: acceptance needs a recorded peer, `communicate` and a local topic, and is refused while another peer holds the slot |
| `Responder.AcceptsIff` | main.py:47-79 | the decline chain accepts exactly a proposal with `communicate`, from a recorded peer, on a topic in both lists, while the slot is free or already that peer's |
| `Responder.Handle` | main.py:22-84 | `io_cb` as a value: something written means the watch is kept; a failed read or write writes nothing; the slot changes only to the recorded peer and only with a reply written; a changed id comes with topics |
| `Responder.HandleKeepsPairing` | main.py:16-41 | the recorded id and topics are always set together |
| `Responder.NeverReleases` | main.py:47-84 | the responder never frees the slot; it only takes it for the recorded peer, from free, after an accepted proposal on a topic in both lists |
| `Responder.HelloAnswered` | main.py:29-44 | any bytes that decode to an exchange packet are recorded and answered with exactly the local exchange packet |
| `Responder.AcceptEchoes` | main.py:80-84 | an accepted proposal, when laid out as the encoder does, is written back byte for byte, and the slot is given to the recorded peer |
| `Responder.NoPeerRefuses` | main.py:48-52 | without a recorded peer every negotiation gets `(false, "")` and the slot is left alone |
| `Responder.UnknownIgnored` | main.py:28-33 | a packet with an unknown tag is ignored and the watch is kept |
| `Responder.ConnectionData.constructor` | main.py:16-19 | a connection starts with no id and no topics |
| `Responder.Connection.constructor` | main.py:24 | a callback object starts without connection data |
| `Responder.OnInfoExchange` | main.py:38-44 | the peer's id and topics are stored, then the local exchange packet is written; more than 255 local topics raise OverflowError, and otherwise a failed write raises OSError |
| `Responder.OnNegotiation` | main.py:47-84 | writes the echo and takes the slot for the recorded peer exactly when the chain accepts; otherwise writes the refusal and leaves the slot; a failed write raises before the slot is taken |
| `Responder.IoCb` | main.py:22-35 | connection data is created once per object and keeps id and topics set together; read, decode and dispatch behave as `Handle`, any exception returning False |
| `Handshake.Agreement` | client.py:62-105 | two idle bracelets with a common topic both commit to each other, and the responder echoes the initiator's proposal |
| `Handshake.NoCommonTopic` | client.py:82-91 | without a common topic the initiator proposes `(false, "")`, the responder refuses, and neither slot is taken |

## Left out

- `server.py` is not part of this model. It covers D-Bus/BlueZ profile registration, GLib IO watches and file-descriptor handling. `io_cb` is modelled with the file descriptor abstracted away.
- `hardware.py` is not part of this model. It covers GPIO pins, blink loops and the interrupt callback.
- Bluetooth discovery, sockets, `os.read` and `os.write` are left out. A scan is a sequence of `Client.Device` values. A socket is a `Client.Link`. A read is its outcome and a write is whether it succeeds.
  - Partial writes and frames split across several `recv` calls are not modelled: each `recv` returns one whole reply.
  - The 65537-byte read limit is not modelled.
  - A failure to create the socket itself (outside the `try`) is not modelled.
- `DeviceDiscoverer.run`, `asyncio.run`, the threads and `main()` are left out. The model runs one cycle and one callback at a time. Each side runs in its own thread and has its own slot (see above), so no slot is shared between the threads.
- `random.randrange` is replaced by the injected index `pick`.
- `print` output and the `hex()` formatting inside it are left out.
- A device name of `None` (a name lookup that failed) is not modelled. Every name is a string.
- `_search_duration` is stored (8 by default) but only the scan would use it.
