/**
 The SEGA CDC protocol command by command, in the bytes on the wire: which frames are requests, which body each
 is answered with, and what it leaves of the reader.
 */
module SegaReplies {
  import opened Wrappers
  import opened Bytes
  import Pn532
  import CardReader
  import Sega
  import SegaFraming
  import SegaLaws

  type Air = Pn532.Air

  /** A request: its length, address, sequence number, command, payload length and payload. */
  function RequestFrame(address: uint8, sequence: uint8, command: uint8, payload: seq<uint8>): seq<uint8>
    requires |payload| <= 250
  {
    [5 + |payload|, address, sequence, command, |payload|] + payload
  }

  /** A reply: its length, the request's address, sequence number and command, status, data length and data. */
  function ReplyFrame(address: uint8, sequence: uint8, command: uint8, status: uint8, data: seq<uint8>): seq<uint8>
    requires |data| <= 249
  {
    [6 + |data|, address, sequence, command, status, |data|] + data
  }

  /** How a frame and its checksum stand on the wire, with both bytes that need stuffing. */
  lemma WireExample()
    ensures SegaFraming.Frame([0x03, 0xE0, 0xD0]) == [0xE0, 0x03, 0xD0, 0xDF, 0xD0, 0xCF, 0xB3]
  {
    var body: seq<uint8> := [0x03, 0xE0, 0xD0];
    assert body[..2] == [0x03, 0xE0] && body[..2][..1] == [0x03] && body[..2][..1][..0] == [];
    assert Total([0x03]) == 0x03 && Total([0x03, 0xE0]) == 0xE3 && Total(body) == 0x1B3;
    assert Checksum(body) == 0xB3;
    var decoded: seq<uint8> := body + [0xB3];
    assert decoded == [0x03] + ([0xE0] + ([0xD0] + ([0xB3] + [])));
    StuffCons(0x03, [0xE0] + ([0xD0] + ([0xB3] + [])));
    StuffCons(0xE0, [0xD0] + ([0xB3] + []));
    StuffCons(0xD0, [0xB3] + []);
    StuffCons(0xB3, []);
  }

  lemma StuffCons(b: uint8, rest: seq<uint8>)
    ensures SegaFraming.Stuff([b] + rest) == SegaFraming.StuffByte(b) + SegaFraming.Stuff(rest)
  {
    assert ([b] + rest)[1..] == rest;
  }

  // ------------------------------------------------------------ what is served

  /** Requests are the frames that dispatch recognises: each of them is, and nothing else. */
  lemma RequestsRecognised(address: uint8, sequence: uint8, command: uint8, payload: seq<uint8>)
    requires |payload| <= 250
    ensures Sega.IsRequest(RequestFrame(address, sequence, command, payload))
    ensures RequestFrame(address, sequence, command, payload)[5..] == payload
  {
  }

  lemma OnlyRequestsRecognised(frame: seq<uint8>)
    requires Sega.IsRequest(frame)
    ensures |frame| <= 0xFF && frame == RequestFrame(frame[1], frame[2], frame[3], frame[5..])
  {
    assert frame == frame[..5] + frame[5..];
  }

  ghost predicate IsSomeRequest(frame: seq<uint8>) {
    exists address, sequence, command, payload: seq<uint8> ::
      |payload| <= 250 && frame == RequestFrame(address, sequence, command, payload)
  }

  /** A delivered frame of any other shape is dropped: no reply, and the reader stays as it is. */
  lemma OthersDropped(s: CardReader.State, frame: seq<uint8>, air: Air)
    requires CardReader.WellFormed(s) && !IsSomeRequest(frame)
    ensures Sega.Dispatch(s, frame, air) == (s, [])
  {
    if Sega.IsRequest(frame) {
      OnlyRequestsRecognised(frame);
      assert false;
    }
  }

  /** The over-long result: a FeliCa exchange, well framed, in which the target returns 250 bytes. */
  ghost predicate Overlong(s: CardReader.State, command: uint8, payload: seq<uint8>, air: Air) {
    && command == 0x71 && |payload| >= 9 && |payload| == 8 + payload[8] as int
    && exists data: seq<uint8> ::
         |data| == 250 && Pn532.Carries(air(0, 0x40, [s.activeFelica.target] + payload[8..]), 0x40, [0] + data)
  }

  lemma OverlongIsUnanswered(s: CardReader.State, sequence: uint8, command: uint8, payload: seq<uint8>, air: Air)
    requires |payload| <= 250
    ensures Overlong(s, command, payload, air)
       <==> SegaLaws.Unanswered(s, RequestFrame(0x00, sequence, command, payload), air)
  {
    hide Pn532.FelicaTransact, Pn532.Carries;
    var request := RequestFrame(0x00, sequence, command, payload);
    RequestsRecognised(0x00, sequence, command, payload);
    if command == 0x71 && Sega.FelicaPayloadOk(payload) {
      assert request[13..] == payload[8..];
      var r := Pn532.FelicaTransact(air, 0, s.activeFelica.target, request[13..], 250);
      forall data: seq<uint8>
        ensures r == Ok(data) <==>
                Pn532.Carries(air(0, 0x40, [s.activeFelica.target] + payload[8..]), 0x40, [0] + data) && |data| <= 250
      {
        Pn532.FelicaTransactExactly(air, 0, s.activeFelica.target, request[13..], 250, data);
      }
    }
  }

  /**
   Every request to the NFC address, whatever its command and payload, is answered exactly once, with address,
   sequence number and command copied, but for the over-long FeliCa result, which is not answered.
   */
  lemma NfcRequestAnswered(s: CardReader.State, sequence: uint8, command: uint8, payload: seq<uint8>, air: Air)
    requires CardReader.WellFormed(s) && |payload| <= 250
    ensures var bodies := Sega.Dispatch(s, RequestFrame(0x00, sequence, command, payload), air).1;
            if Overlong(s, command, payload, air) then bodies == []
            else exists status, data: seq<uint8> ::
                   |data| <= 249 && bodies == [ReplyFrame(0x00, sequence, command, status, data)]
  {
    hide Overlong, Sega.HandleNfc;
    var request := RequestFrame(0x00, sequence, command, payload);
    RequestsRecognised(0x00, sequence, command, payload);
    OverlongIsUnanswered(s, sequence, command, payload, air);
    SegaLaws.NfcAnsweredOnce(s, request, air);
    var reply := Sega.HandleNfc(s, command, payload, air).1;
    if !Overlong(s, command, payload, air) {
      assert Sega.Dispatch(s, request, air).1 == [ReplyFrame(0x00, sequence, command, reply.status, reply.payload)];
    }
  }

  /** How a request to the NFC address is answered, and what it leaves of the reader. */
  ghost predicate Answered(s: CardReader.State, sequence: uint8, command: uint8, payload: seq<uint8>, air: Air,
                           s': CardReader.State, status: uint8, data: seq<uint8>)
    requires CardReader.WellFormed(s) && |payload| <= 250 && |data| <= 249
  {
    Sega.Dispatch(s, RequestFrame(0x00, sequence, command, payload), air)
    == (s', [ReplyFrame(0x00, sequence, command, status, data)])
  }

  lemma AnsweredBy(s: CardReader.State, sequence: uint8, command: uint8, payload: seq<uint8>, air: Air)
    requires CardReader.WellFormed(s) && |payload| <= 250
    ensures var (s', reply) := Sega.HandleNfc(s, command, payload, air);
            |reply.payload| <= 249 ==> Answered(s, sequence, command, payload, air, s', reply.status, reply.payload)
  {
    hide Sega.HandleNfc;
    RequestsRecognised(0x00, sequence, command, payload);
  }

  // ---------------------------------------------------------- the NFC commands

  /** Versions, reset, the update commands and unknown commands have fixed answers and leave the reader alone. */
  lemma FixedReplies(s: CardReader.State, sequence: uint8, payload: seq<uint8>, air: Air)
    requires CardReader.WellFormed(s) && |payload| <= 250
    ensures Answered(s, sequence, 0x30, payload, air, s, 0, [0x94])
    ensures Answered(s, sequence, 0x32, payload, air, s, 0, [0x38, 0x33, 0x37, 0x2D, 0x31, 0x35, 0x32, 0x38, 0x36])
    ensures Answered(s, sequence, 0x60, payload, air, s, 0, [])
    ensures Answered(s, sequence, 0x61, payload, air, s, if |payload| == 0x2B then 0x20 else 0, [])
    ensures Answered(s, sequence, 0x62, payload, air, s, 3, [])
  {
    hide Sega.Dispatch;
    AnsweredBy(s, sequence, 0x30, payload, air);
    AnsweredBy(s, sequence, 0x32, payload, air);
    AnsweredBy(s, sequence, 0x60, payload, air);
    AnsweredBy(s, sequence, 0x61, payload, air);
    AnsweredBy(s, sequence, 0x62, payload, air);
  }

  lemma UnknownCommandRefused(s: CardReader.State, sequence: uint8, command: uint8, payload: seq<uint8>, air: Air)
    requires CardReader.WellFormed(s) && |payload| <= 250
    requires command !in {0x30, 0x32, 0x40, 0x41, 0x42, 0x43, 0x50, 0x51, 0x52, 0x54, 0x55, 0x60, 0x61, 0x62, 0x71}
    ensures Answered(s, sequence, command, payload, air, s, 1, [])
  {
    hide Sega.Dispatch;
    AnsweredBy(s, sequence, command, payload, air);
  }

  /** 0x40 and 0x41 switch the radio on and off: the flag follows, and the status is 0, exactly if the chip accepts. */
  lemma RadioReplies(s: CardReader.State, sequence: uint8, on: bool, payload: seq<uint8>, air: Air)
    requires CardReader.WellFormed(s) && |payload| <= 250
    ensures var accepted := exists p: seq<uint8> ::
              Pn532.Carries(air(0, 0x32, [0x01, if on then 0x01 else 0x00]), 0x32, p) && |p| <= 8;
            Answered(s, sequence, if on then 0x40 else 0x41, payload, air,
                     if accepted then s.(radioEnabled := on) else s, if accepted then 0 else 1, [])
  {
    hide Sega.Dispatch, Pn532.SetRadio;
    AnsweredBy(s, sequence, if on then 0x40 else 0x41, payload, air);
    Pn532.RadioSwitchedExactly(air, 0, on);
  }

  /** 0x50 stores a six-byte payload as the Aime key, 0x54 as the Banapass key; other payloads are refused. */
  lemma SetKeyReplies(s: CardReader.State, sequence: uint8, payload: seq<uint8>, air: Air)
    requires CardReader.WellFormed(s) && |payload| <= 250
    ensures if |payload| == 6 then
              && Answered(s, sequence, 0x50, payload, air, s.(keys := [payload, s.keys[1]]), 0, [])
              && Answered(s, sequence, 0x54, payload, air, s.(keys := [s.keys[0], payload]), 0, [])
            else
              && Answered(s, sequence, 0x50, payload, air, s, 1, [])
              && Answered(s, sequence, 0x54, payload, air, s, 1, [])
  {
    hide Sega.Dispatch;
    AnsweredBy(s, sequence, 0x50, payload, air);
    AnsweredBy(s, sequence, 0x54, payload, air);
    assert s.keys[0 := payload] == [payload, s.keys[1]] && s.keys[1 := payload] == [s.keys[0], payload];
  }

  /** 0x51 chooses the Aime key for later reads, 0x55 the Banapass key, whatever the payload. */
  lemma ChooseKeyReplies(s: CardReader.State, sequence: uint8, payload: seq<uint8>, air: Air)
    requires CardReader.WellFormed(s) && |payload| <= 250
    ensures Answered(s, sequence, 0x51, payload, air, s.(activeKeyType := 0), 0, [])
    ensures Answered(s, sequence, 0x55, payload, air, s.(activeKeyType := 1), 0, [])
  {
    hide Sega.Dispatch;
    AnsweredBy(s, sequence, 0x51, payload, air);
    AnsweredBy(s, sequence, 0x55, payload, air);
  }

  /** 0x43 succeeds exactly for the identifier of the active tag. */
  lemma SelectReplies(s: CardReader.State, sequence: uint8, payload: seq<uint8>, air: Air)
    requires CardReader.WellFormed(s) && |payload| <= 250
    ensures var selected := |payload| == 4 && payload == s.activeMifare.uid;
            Answered(s, sequence, 0x43, payload, air, s, if selected then 0 else 1, [])
  {
    hide Sega.Dispatch;
    AnsweredBy(s, sequence, 0x43, payload, air);
  }

  /** The tag with this identifier is active, and takes the chosen key for the block: Aime by 0x61, Banapass by 0x60. */
  ghost predicate BlockReadable(s: CardReader.State, payload: seq<uint8>, air: Air, data: seq<uint8>)
    requires CardReader.WellFormed(s)
  {
    && |payload| == 5 && payload[..4] == s.activeMifare.uid
    && Pn532.KeyAccepted(air(0, 0x40, [s.activeMifare.target, if s.activeKeyType == 0 then 0x61 else 0x60, payload[4]]
                                      + s.keys[s.activeKeyType] + s.activeMifare.uid))
    && Pn532.BlockShown(air(1, 0x40, [s.activeMifare.target, 0x30, payload[4]]), data)
  }

  /** 0x52 returns a block exactly if it can be read that way, and refuses otherwise. */
  lemma ReadBlockReplies(s: CardReader.State, sequence: uint8, payload: seq<uint8>, air: Air, data: seq<uint8>)
    requires CardReader.WellFormed(s) && |payload| <= 250 && |data| == 16
    ensures Answered(s, sequence, 0x52, payload, air, s, 0, data) <==> BlockReadable(s, payload, air, data)
    ensures (forall d: seq<uint8> :: !BlockReadable(s, payload, air, d)) ==>
              Answered(s, sequence, 0x52, payload, air, s, 1, [])
  {
    hide Sega.Dispatch, Sega.HandleNfc, Pn532.KeyAccepted, Pn532.BlockShown;
    AnsweredBy(s, sequence, 0x52, payload, air);
    BlockReplied(s, payload, air);
    BlockReadExactly(s, payload, air, data);
    var r := BlockResult(s, payload, air);
    if r.Some? {
      BlockReadExactly(s, payload, air, r.value);
    }
    if Answered(s, sequence, 0x52, payload, air, s, 0, data) {
      ReplyData(s, sequence, 0x52, payload, air, 0, data);
    }
  }

  /** A reply determines its status and data. */
  lemma ReplyData(s: CardReader.State, sequence: uint8, command: uint8, payload: seq<uint8>, air: Air,
                  status: uint8, data: seq<uint8>)
    requires CardReader.WellFormed(s) && |payload| <= 250 && |data| <= 249
    requires Answered(s, sequence, command, payload, air, s, status, data)
    requires |Sega.HandleNfc(s, command, payload, air).1.payload| <= 249
    ensures Sega.HandleNfc(s, command, payload, air).1 == Sega.Reply(status, data)
  {
    hide Sega.HandleNfc;
    var reply := Sega.HandleNfc(s, command, payload, air).1;
    RequestsRecognised(0x00, sequence, command, payload);
    var one, two := ReplyFrame(0x00, sequence, command, status, data),
                    ReplyFrame(0x00, sequence, command, reply.status, reply.payload);
    assert [one] == [two];
    assert one == two;
    assert one[4] == status && two[4] == reply.status && one[6..] == data && two[6..] == reply.payload;
  }

  function BlockResult(s: CardReader.State, payload: seq<uint8>, air: Air): (r: Option<seq<uint8>>)
    requires CardReader.WellFormed(s)
    ensures r.Some? ==> |r.value| == 16
  {
    if |payload| != 5 then None
    else match CardReader.ReadMifareBlock(s, air, payload[..4], payload[4])
         case Ok(data) => Some(data)
         case Err(_) => None
  }

  lemma BlockReplied(s: CardReader.State, payload: seq<uint8>, air: Air)
    requires CardReader.WellFormed(s)
    ensures var r := BlockResult(s, payload, air);
            Sega.HandleNfc(s, 0x52, payload, air)
            == (s, if r.Some? then Sega.Reply(0, r.value) else Sega.Reply(1, []))
  {
  }

  lemma BlockReadExactly(s: CardReader.State, payload: seq<uint8>, air: Air, data: seq<uint8>)
    requires CardReader.WellFormed(s)
    ensures BlockResult(s, payload, air) == Some(data) <==> BlockReadable(s, payload, air, data)
  {
    hide Pn532.KeyAccepted, Pn532.BlockShown, Pn532.Authenticates, Pn532.MifareReadBlock;
    if |payload| == 5 && payload[..4] == s.activeMifare.uid {
      Pn532.AuthenticatesExactly(air, 0, s.activeMifare.target, if s.activeKeyType == 0 then 0x61 else 0x60, payload[4],
                                 s.keys[s.activeKeyType], s.activeMifare.uid);
      Pn532.BlockReadExactly(air, 1, s.activeMifare.target, payload[4], data);
    }
  }

  /** The payload frames a FeliCa command behind eight bytes, and the active target returns this data to it. */
  ghost predicate FelicaReturns(s: CardReader.State, payload: seq<uint8>, air: Air, data: seq<uint8>) {
    && |payload| >= 9 && |payload| == 8 + payload[8] as int
    && Pn532.Carries(air(0, 0x40, [s.activeFelica.target] + payload[8..]), 0x40, [0] + data) && |data| <= 250
  }

  /** 0x71 passes a framed FeliCa command on and its data back, and refuses if nothing comes back. */
  lemma FelicaReplies(s: CardReader.State, sequence: uint8, payload: seq<uint8>, air: Air, data: seq<uint8>)
    requires CardReader.WellFormed(s) && |payload| <= 250
    ensures FelicaReturns(s, payload, air, data) && |data| <= 249 ==>
              Answered(s, sequence, 0x71, payload, air, s, 0, data)
    ensures (forall d: seq<uint8> :: !FelicaReturns(s, payload, air, d)) ==>
              Answered(s, sequence, 0x71, payload, air, s, 1, [])
  {
    hide Sega.Dispatch, Pn532.Carries, Pn532.FelicaTransact;
    AnsweredBy(s, sequence, 0x71, payload, air);
    if |payload| >= 9 && |payload| == 8 + payload[8] as int {
      var r := Pn532.FelicaTransact(air, 0, s.activeFelica.target, payload[8..], 250);
      Pn532.FelicaTransactExactly(air, 0, s.activeFelica.target, payload[8..], 250, data);
      if r.Ok? {
        Pn532.FelicaTransactExactly(air, 0, s.activeFelica.target, payload[8..], 250, r.value);
        assert FelicaReturns(s, payload, air, r.value);
      }
    }
  }

  /** 0x42 makes one scan and announces what it observes: no target, a MIFARE tag or a FeliCa card. */
  lemma PollReplies(s: CardReader.State, sequence: uint8, payload: seq<uint8>, air: Air)
    requires CardReader.WellFormed(s) && |payload| <= 250
    ensures var (s', r) := CardReader.Observe(s, air);
            match r
            case Err(_) => Answered(s, sequence, 0x42, payload, air, s', 1, [])
            case Ok(card) =>
              && |card.mifareUid| == 4 && |card.idm| == |card.pmm| == 8
              && (card.cardType.NoCard? ==> Answered(s, sequence, 0x42, payload, air, s', 0, [0]))
              && (card.cardType.Mifare? ==>
                    Answered(s, sequence, 0x42, payload, air, s', 0, [1, 0x10, 4] + card.mifareUid))
              && (card.cardType.Felica? ==>
                    Answered(s, sequence, 0x42, payload, air, s', 0, [1, 0x20, 16] + card.idm + card.pmm))
  {
    hide Sega.Dispatch, CardReader.Observe;
    CardReader.ObservationsWellFormed(s, air);
    AnsweredBy(s, sequence, 0x42, payload, air);
  }

  // ---------------------------------------------------------- the LED address

  /** The LED commands: the colour is set without an answer, reset and information have fixed ones, others fail. */
  lemma LedReplies(s: CardReader.State, sequence: uint8, command: uint8, payload: seq<uint8>, air: Air)
    requires CardReader.WellFormed(s) && |payload| <= 250
    ensures Sega.Dispatch(s, RequestFrame(0x08, sequence, command, payload), air)
            == (s, if command == 0x81 then []
                   else if command == 0xF5 then [ReplyFrame(0x08, sequence, command, 0, [0])]
                   else if command == 0xF0 then
                     [ReplyFrame(0x08, sequence, command, 0,
                                 [0x30, 0x30, 0x30, 0x2D, 0x30, 0x30, 0x30, 0x30, 0x30, 0xFF, 0x11, 0x40])]
                   else [ReplyFrame(0x08, sequence, command, 1, [])])
  {
    RequestsRecognised(0x08, sequence, command, payload);
  }

  /** A request to any other address is dropped. */
  lemma OtherAddressDropped(s: CardReader.State, address: uint8, sequence: uint8, command: uint8, payload: seq<uint8>,
                            air: Air)
    requires CardReader.WellFormed(s) && |payload| <= 250 && address != 0x00 && address != 0x08
    ensures Sega.Dispatch(s, RequestFrame(address, sequence, command, payload), air) == (s, [])
  {
  }
}
