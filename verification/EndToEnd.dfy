/** Reader to host in one piece: what a tag on the antenna lets the host report, and the version handshake. */
module EndToEnd {
  import opened Wrappers
  import opened Bytes
  import opened Protocol
  import Pn532
  import CardReader
  import Prhp
  import Session
  import Caller

  /**
   The host's identifiers, for any bytes received over the air. Whatever one scan observes, its signal
   decodes; the Aime code is present exactly when the Aime key opened both blocks and the code in them
   is valid, and is then that code; the blocks are present exactly when a key opened both, and are those
   of the first that did, Aime before Banapass; the FeliCa number is present exactly for a FeliCa target and
   is its IDm read big-endian.
   */
  lemma IdentifiersEndToEnd(s: CardReader.State, air: Pn532.Air)
    requires CardReader.WellFormed(s) && s.radioEnabled && CardReader.Observe(s, air).1.Ok?
    ensures var (s', r) := CardReader.Observe(s, air);
            var card := r.value;
            var host := Prhp.Project(card);
            var aime := CardReader.ReadBlocks(air, 2, s'.activeMifare, 0x61, 2, s.keys[CardReader.KEY_AIME], Zeros(32));
            var bana := CardReader.ReadBlocks(air, 5, s'.activeMifare, 0x60, 1, s.keys[CardReader.KEY_BANA], Zeros(32));
            && DecodeCardStateSignal(Prhp.CardSignal(card)) == Ok(host)
            && Session.AimeIdOf(host) ==
               (if card.cardType.Mifare? && aime.0 && CardReader.ValidLuid(aime.1[22..32]) then Some(aime.1[22..32])
                else None)
            && Session.MifareBlocksOf(host) ==
               (if card.cardType.Mifare? && aime.0 then Some(aime.1)
                else if card.cardType.Mifare? && bana.0 then Some(bana.1)
                else None)
            && Session.FelicaIdOf(host) ==
               (if card.cardType.Felica? then Some(Session.BigEndian(s'.activeFelica.idm)) else None)
  {
    hide Pn532.PollFelica, Pn532.PollTypeA, CardReader.ReadBlocks, Prhp.CardSignal, Session.BigEndian;
    CardReader.ObservationsWellFormed(s, air);
    var card := CardReader.Observe(s, air).1.value;
    Prhp.SignalDecodes(card);
    if card.cardType.Mifare? {
      CardReader.AccessCodeKept(s, air);
      CardReader.BlocksKept(s, air);
    }
  }

  /** The FeliCa number the host reports fits its 64 bits and names one IDm. */
  lemma FelicaIdNamesIdm(a: CardReader.Card, b: CardReader.Card)
    requires CardReader.Observable(a) && CardReader.Observable(b) && a.cardType.Felica? && b.cardType.Felica?
    ensures Session.FelicaIdOf(Prhp.Project(a)) == Some(Session.BigEndian(a.idm))
    ensures Session.BigEndian(a.idm) < 0x1_0000_0000_0000_0000
    ensures Session.FelicaIdOf(Prhp.Project(a)) == Session.FelicaIdOf(Prhp.Project(b)) <==> a.idm == b.idm
  {
    hide Session.BigEndian;
    Session.BigEndianBound(a.idm);
    EightBytes();
    if Session.BigEndian(a.idm) == Session.BigEndian(b.idm) {
      Session.BigEndianInjective(a.idm, b.idm);
    }
  }

  lemma EightBytes()
    ensures Session.Pow256(8) == 0x1_0000_0000_0000_0000
  {
    assert Session.Pow256(2) == 0x1_0000;
    assert Session.Pow256(4) == 0x1_0000_0000;
    assert Session.Pow256(6) == 0x1_0000_0000_0000;
  }

  /** The first call of a new caller has sequence 1. */
  method FirstCall(timeout: int) returns (sequence: uint16)
    requires timeout > 0
    ensures sequence == 1
  {
    var caller := new Caller.Caller();
    var outcome := caller.Allocate(timeout);
    sequence := outcome.value.0;
    assert Caller.SequenceOf(1) == 1;
  }

  /** The host's request for a sequence, through the device and back. */
  method AskVersion(sequence: uint16) returns (reply: Report)
    requires sequence != 0
    ensures DecodeHeader(reply) == Ok(Header(RESPONSE, GET_VERSION, sequence, SUCCESS))
    ensures DecodeGetVersionResponse(reply) == Ok(Version(0, 1))
  {
    hide Prhp.Respond, DecodeHeader, DecodeGetVersionResponse;
    var request := NewRequest(GET_VERSION, sequence);
    var sent := Prhp.Dispatch(request[..]);
    Prhp.VersionHandshake(sequence);
    reply := sent.value;
  }

  /** A response for a live call reaches that call and nothing else. */
  method Route(session: Session.Session, sequence: uint16, call: Caller.PendingCall, reply: Report)
    requires session.Valid() && sequence in session.caller.calls
    requires session.caller.calls[sequence] == call && !call.consumed
    requires Session.IsResponse(reply) && DecodeHeader(reply).value.sequence == sequence
    modifies session`latest, session.caller`calls, session.caller.calls.Values
    ensures session.Valid() && session.latest == old(session.latest)
    ensures call.response == [reply]
    ensures session.caller.calls == old(session.caller.calls) - {sequence}
    ensures forall s | s in old(session.caller.calls) && s != sequence :: unchanged(old(session.caller.calls)[s])
  {
    var _ := session.Dispatch(reply);
  }

  /** Allocating below capacity adds one unused call and drops none. */
  method Open(session: Session.Session, timeout: int) returns (sequence: uint16, call: Caller.PendingCall)
    requires session.Valid() && timeout > 0 && |session.caller.calls.Keys| < Caller.CALLER_CAPACITY
    modifies session.caller
    ensures session.Valid() && fresh(call) && !call.consumed
    ensures sequence != 0 && sequence !in old(session.caller.calls)
    ensures session.caller.calls == old(session.caller.calls)[sequence := call]
  {
    hide Caller.SequenceOf, Caller.AllTaken;
    var outcome := session.caller.Allocate(timeout);
    sequence, call := outcome.value.0, outcome.value.1;
  }

  /**
   The version handshake through both sides: the host allocates a call, the device answers the request made
   for it, the router hands the answer to that very call, and it decodes to 0.1. It cannot fail for want of
   a sequence, and neither the card nor any other pending call is touched.
   */
  method Handshake(session: Session.Session, timeout: int) returns (call: Caller.PendingCall)
    requires session.Valid() && timeout > 0 && |session.caller.calls.Keys| < Caller.CALLER_CAPACITY
    modifies session, session.caller, session.caller.calls.Values
    ensures session.Valid()
    ensures fresh(call) && |call.response| == 1
    ensures DecodeGetVersionResponse(call.response[0]) == Ok(Version(0, 1))
    ensures session.latest == old(session.latest)
    ensures session.caller.calls == old(session.caller.calls)
    ensures forall s | s in old(session.caller.calls) :: unchanged(old(session.caller.calls)[s])
  {
    hide DecodeHeader, DecodeGetVersionResponse;
    ghost var before := session.caller.calls;
    var sequence: uint16;
    sequence, call := Open(session, timeout);
    var reply := AskVersion(sequence);
    Route(session, sequence, call, reply);
    assert before[sequence := call] - {sequence} == before;
  }
}
