/** The device side of PRHP: the request dispatcher and the card-state publisher. */
module Prhp {
  import opened Wrappers
  import opened Bytes
  import opened Protocol
  import CardReader

  // ----------------------------------------------------------------- requests

  /** A report the device owes an answer: a request with a sequence to answer to. */
  predicate IsRequest(report: Report) {
    report[0] == REQUEST && ReadLe16(report[2], report[3]) != 0
  }

  function Response(opcode: uint8, status: uint8, sequence: uint16): Report {
    Bare(Header(RESPONSE, opcode, sequence, status))
  }

  /** The report sent back for a received report, if any. */
  function Respond(report: Report): Option<Report> {
    var opcode := report[1];
    var sequence := ReadLe16(report[2], report[3]);
    if report[4] != 0 then
      if report[0] == REQUEST && sequence != 0 then Some(Response(opcode, INVALID_MESSAGE, sequence)) else None
    else if report[0] != REQUEST || sequence == 0 then None
    else if opcode == GET_VERSION then Some(Response(opcode, SUCCESS, sequence)[5 := 0][6 := 1])
    else Some(Response(opcode, UNKNOWN_OPCODE, sequence))
  }

  method BeginResponse(response: array<uint8>, opcode: uint8, status: uint8, sequence: uint16)
    requires response.Length == REPORT_SIZE
    modifies response
    ensures response[..] == Response(opcode, status, sequence)
  {
    forall i | 0 <= i < REPORT_SIZE {
      response[i] := 0;
    }
    response[0], response[1] := RESPONSE, opcode;
    response[2], response[3] := sequence % 0x100, sequence / 0x100;
    response[4] := status;
  }

  method Dispatch(request: Report) returns (sent: Option<Report>)
    ensures sent == Respond(request)
  {
    var messageType, opcode := request[0], request[1];
    var sequence := ReadLe16(request[2], request[3]);
    var response := new uint8[REPORT_SIZE];
    if request[4] != 0 {
      if messageType == REQUEST && sequence != 0 {
        BeginResponse(response, opcode, INVALID_MESSAGE, sequence);
        return Some(response[..]);
      }
      return None;
    }
    if messageType == SIGNAL {
      return None; // SET_LED is accepted and has no effect
    }
    if messageType != REQUEST || sequence == 0 {
      return None;
    }
    if opcode == GET_VERSION {
      BeginResponse(response, opcode, SUCCESS, sequence);
      response[5] := 0;
      response[6] := 1;
      return Some(response[..]);
    }
    BeginResponse(response, opcode, UNKNOWN_OPCODE, sequence);
    sent := Some(response[..]);
  }

  /** An answer the host accepts as the response to this request. */
  predicate Answers(report: Report, response: Report) {
    var r := DecodeHeader(response);
    && r.Ok?
    && r.value.messageType == RESPONSE
    && r.value.opcode == report[1]
    && r.value.sequence == ReadLe16(report[2], report[3])
    && (r.value.status == SUCCESS <==> report[4] == 0 && report[1] == GET_VERSION)
  }

  /** Exactly the requests with a non-zero sequence are answered, with an answer the host accepts. */
  lemma AnsweredExactlyRequests(report: Report)
    ensures Respond(report).Some? <==> IsRequest(report)
    ensures Respond(report).Some? ==> Answers(report, Respond(report).value)
  {
    if IsRequest(report) {
      var sequence := ReadLe16(report[2], report[3]);
      var response := Respond(report).value;
      assert ReadLe16(response[2], response[3]) == sequence;
    }
  }

  /**
   The answer, byte by byte: opcode and sequence are the request's; the status is 2 for a request with a status,
   else 0 for a version request, which carries 0.1, else 1.
   */
  lemma ResponseBytes(report: Report)
    ensures var status := if report[4] != 0 then 2 else if report[1] == 0x01 then 0 else 1;
            var header := [0x02, report[1], report[2], report[3], status];
            Respond(report) == if report[0] == 0x01 && (report[2] != 0 || report[3] != 0) then
                                 Some(header + if status == 0 then [0, 1] + Zeros(57) else Zeros(59))
                               else None
  {
    var sequence := ReadLe16(report[2], report[3]);
    if report[0] == REQUEST && sequence != 0 {
      var status := if report[4] != 0 then 2 else if report[1] == 0x01 then 0 else 1;
      var header := [0x02, report[1], report[2], report[3], status];
      var response := Respond(report).value;
      SequenceBytes(report[2], report[3]);
      assert Response(report[1], status, sequence) == header + Zeros(59);
      if status == 0 {
        assert response == header + ([0, 1] + Zeros(57));
      }
    }
  }

  lemma SequenceBytes(lo: uint8, hi: uint8)
    ensures var sequence := ReadLe16(lo, hi); sequence % 0x100 == lo && sequence / 0x100 == hi
  {
  }

  function Requests(reports: seq<Report>): seq<Report> {
    if reports == [] then []
    else if IsRequest(reports[0]) then [reports[0]] + Requests(reports[1..])
    else Requests(reports[1..])
  }

  /** Everything sent back over a run of received reports. */
  function Serve(reports: seq<Report>): seq<Report> {
    if reports == [] then []
    else (match Respond(reports[0]) case None => [] case Some(response) => [response]) + Serve(reports[1..])
  }

  /** Over any run of reports: one accepted answer per request, in order, and nothing else. */
  lemma {:induction false} RequestLaw(reports: seq<Report>)
    ensures |Serve(reports)| == |Requests(reports)|
    ensures forall k :: 0 <= k < |Serve(reports)| ==> Answers(Requests(reports)[k], Serve(reports)[k])
  {
    if reports != [] {
      AnsweredExactlyRequests(reports[0]);
      RequestLaw(reports[1..]);
    }
  }

  /** A known opcode used with another message type than its own (RFC 0001 (PRHP), section 6). */
  predicate WrongType(report: Report) {
    || (report[1] == GET_VERSION && report[0] != REQUEST)
    || ((report[1] == CARD_STATE || report[1] == SET_LED) && report[0] != SIGNAL)
  }

  /**
   RFC 0001 (PRHP), section 6, has an opcode used with the wrong message type discarded. The device
   does so unless the report is a request with a sequence, which is answered as any other. The rule is kept on
   exactly the wrong-type reports that owe no answer.
   */
  lemma WrongTypeDiscardedExactly(report: Report)
    requires WrongType(report)
    ensures Respond(report) == None <==> !IsRequest(report)
    ensures Respond(report).Some? ==>
              Respond(report).value == Response(report[1], if report[4] != 0 then INVALID_MESSAGE else UNKNOWN_OPCODE,
                                                ReadLe16(report[2], report[3]))
  {
  }

  /** A `SET_LED` request is the witness: it is answered. */
  lemma SetLedRequestAnswered()
    ensures var report := Bare(Header(REQUEST, SET_LED, 1, SUCCESS));
            WrongType(report) && Respond(report) == Some(Response(SET_LED, UNKNOWN_OPCODE, 1))
  {
  }

  /** The version handshake: every non-zero sequence gets a reply for that sequence saying 0.1. */
  lemma VersionHandshake(sequence: uint16)
    requires sequence != 0
    ensures var reply := Respond(Bare(Header(REQUEST, GET_VERSION, sequence, SUCCESS)));
            && reply.Some?
            && DecodeHeader(reply.value) == Ok(Header(RESPONSE, GET_VERSION, sequence, SUCCESS))
            && DecodeGetVersionResponse(reply.value) == Ok(Version(0, 1))
  {
    var request := Bare(Header(REQUEST, GET_VERSION, sequence, SUCCESS));
    assert ReadLe16(request[2], request[3]) == sequence;
    var reply := Respond(request).value;
    assert ReadLe16(reply[2], reply[3]) == sequence;
  }

  // --------------------------------------------------------------- card state

  /** What the wire shows of an observation: a MIFARE tag without blocks counts as no card. */
  function Shown(card: CardReader.Card): CardReader.CardType {
    if card.cardType.Mifare? && !card.hasBlocks then CardReader.NoCard else card.cardType
  }

  method PublishCardState(card: CardReader.Card) returns (signal: Report)
    requires |card.luid| == 10 && |card.blocks| == 32 && |card.idm| == 8
    ensures signal == CardSignal(card)
  {
    var raw := new uint8[REPORT_SIZE](i => 0);
    raw[0], raw[1] := SIGNAL, CARD_STATE;
    if card.cardType.Mifare? && !card.hasBlocks {
      raw[5] := CARD_NONE;
    } else {
      raw[5] := card.cardType.Code();
    }
    if raw[5] == CARD_MIFARE {
      forall i | 0 <= i < 10 {
        raw[6 + i] := card.luid[i];
      }
      forall i | 0 <= i < 32 {
        raw[16 + i] := card.blocks[i];
      }
    } else if raw[5] == CARD_FELICA {
      forall i | 0 <= i < 8 {
        raw[6 + i] := card.idm[i];
      }
    }
    signal := raw[..];
  }

  /** The signal published for an observation. */
  function CardSignal(card: CardReader.Card): Report
    requires |card.luid| == 10 && |card.blocks| == 32 && |card.idm| == 8
  {
    var header := [SIGNAL, CARD_STATE, 0, 0, 0, Shown(card).Code()];
    match Shown(card)
    case NoCard => header + Zeros(58)
    case Mifare => header + card.luid + card.blocks + Zeros(16)
    case Felica => header + card.idm + Zeros(50)
  }

  /** The host's view of a device observation. */
  function Project(card: CardReader.Card): Card {
    match Shown(card)
    case NoCard => NO_CARD
    case Mifare => NO_CARD.(cardType := CARD_MIFARE, luid := card.luid, blocks := card.blocks)
    case Felica => NO_CARD.(cardType := CARD_FELICA, idm := card.idm)
  }

  /** Whatever the reader can observe, its signal is accepted by the host and decodes to its projection. */
  lemma SignalDecodes(card: CardReader.Card)
    requires CardReader.Observable(card)
    ensures DecodeCardStateSignal(CardSignal(card)) == Ok(Project(card))
  {
    hide DecodeCardStateSignal, AllBcd;
    var raw, shown := CardSignal(card), Project(card);
    assert raw[..5] == [0x03, 0x02, 0, 0, 0];
    if Shown(card).Mifare? {
      assert raw[6..16] == card.luid && raw[16..48] == card.blocks;
      DigitsAt(raw, card.luid);
    } else if Shown(card).Felica? {
      assert raw[6..14] == card.idm;
    }
    CardStateBytes(raw, shown);
  }

  lemma DigitsAt(raw: Report, luid: seq<uint8>)
    requires |luid| == 10 && raw[6..16] == luid && AllBcd(luid)
    ensures forall i | 6 <= i < 16 :: TwoDigits(raw[i])
  {
    forall i | 6 <= i < 16
      ensures TwoDigits(raw[i])
    {
      assert IsBcd(luid[i - 6]) && luid[i - 6] == raw[i];
    }
  }
}
