/** Request-reply laws of the SEGA CDC device, over single frames and over whole byte streams. */
module SegaLaws {
  import opened Wrappers
  import opened Bytes
  import opened SegaFraming
  import opened Sega
  import Pn532
  import CardReader

  /** A reply body that answers this request: same address, sequence and command, its own lengths right. */
  predicate Answers(request: seq<uint8>, body: seq<uint8>) {
    && |request| >= 5 && IsBody(body) && |body| >= 6
    && body[1] == request[1] && body[2] == request[2] && body[3] == request[3]
    && body[5] == |body| - 6
  }

  /** The one kind of request that gets no answer: a FeliCa exchange that returned 250 bytes. */
  predicate Unanswered(s: CardReader.State, request: seq<uint8>, air: Air) {
    && |request| >= 5
    && request[3] == FELICA_ENCAP
    && FelicaPayloadOk(request[5..])
    && var r := Pn532.FelicaTransact(air, 0, s.activeFelica.target, request[13..], FELICA_REPLY_CAPACITY);
       r.Ok? && |r.value| == 250
  }

  lemma NfcPayloadSize(s: CardReader.State, request: seq<uint8>, air: Air)
    requires CardReader.WellFormed(s) && |request| >= 5
    ensures var payload := HandleNfc(s, request[3], request[5..], air).1.payload;
            if Unanswered(s, request, air) then |payload| == 250 else |payload| <= 249
  {
    var command, payload := request[3], request[5..];
    if command == POLL {
      CardReader.ObservationsWellFormed(s, air);
    } else if command == FELICA_ENCAP && FelicaPayloadOk(payload) {
      assert payload[8..] == request[13..];
    }
  }

  /** Every well-formed NFC request is answered exactly once, but for the over-long FeliCa result. */
  lemma NfcAnsweredOnce(s: CardReader.State, request: seq<uint8>, air: Air)
    requires CardReader.WellFormed(s) && IsRequest(request) && request[1] == ADDRESS_NFC
    ensures var bodies := Dispatch(s, request, air).1;
            if Unanswered(s, request, air) then bodies == []
            else |bodies| == 1 && Answers(request, bodies[0])
  {
    NfcPayloadSize(s, request, air);
  }

  /** An exchange in which the chip returns a zero status and these bytes. */
  function Returning(data: seq<uint8>): Air
    requires |data| <= 251
  {
    (n: nat, code: uint8, request: seq<uint8>) => Pn532.Framed(code, [0] + data)
  }

  /** Such a result does occur: any 250 bytes the chip returns to any FeliCa request leave it without an answer. */
  lemma OverlongResultUnanswered(s: CardReader.State, request: seq<uint8>, data: seq<uint8>)
    requires CardReader.WellFormed(s) && |data| == 250
    requires IsRequest(request) && request[1] == ADDRESS_NFC && request[3] == FELICA_ENCAP
    requires FelicaPayloadOk(request[5..])
    ensures Unanswered(s, request, Returning(data))
    ensures Dispatch(s, request, Returning(data)).1 == []
  {
    hide Pn532.FelicaTransact, Pn532.Framed, Pn532.Carries, Dispatch;
    var air := Returning(data);
    Pn532.FramedCarries(Pn532.IN_DATA_EXCHANGE, [0] + data);
    Pn532.FelicaTransactExactly(air, 0, s.activeFelica.target, request[13..], FELICA_REPLY_CAPACITY, data);
    NfcAnsweredOnce(s, request, air);
  }

  /** LED requests are answered once, `SET_COLOR` excepted; other addresses are never answered. */
  lemma OtherAddressesAnswered(s: CardReader.State, request: seq<uint8>, air: Air)
    requires CardReader.WellFormed(s) && IsRequest(request) && request[1] != ADDRESS_NFC
    ensures var (s', bodies) := Dispatch(s, request, air);
            && s' == s
            && (bodies == [] <==> request[1] != ADDRESS_LED || request[3] == LED_SET_COLOR)
            && (bodies != [] ==> |bodies| == 1 && Answers(request, bodies[0]))
  {
  }

  /** A list of NFC requests none of which meets the over-long FeliCa result when its turn comes. */
  predicate Answerable(s: CardReader.State, requests: seq<seq<uint8>>, airs: nat -> Air)
    requires CardReader.WellFormed(s)
    decreases |requests|
  {
    requests == [] ||
    var n := |requests| - 1;
    && Answerable(s, requests[..n], airs)
    && IsRequest(requests[n]) && requests[n][1] == ADDRESS_NFC
    && !Unanswered(Serve(s, requests[..n], airs).0, requests[n], airs(n))
  }

  predicate AnswersAll(requests: seq<seq<uint8>>, bodies: seq<seq<uint8>>) {
    |bodies| == |requests| && forall k :: 0 <= k < |requests| ==> Answers(requests[k], bodies[k])
  }

  /** A list of NFC requests gives one answer per request, in the same order. */
  lemma {:induction false} AnswersMatchRequests(s: CardReader.State, requests: seq<seq<uint8>>, airs: nat -> Air)
    requires CardReader.WellFormed(s) && Answerable(s, requests, airs)
    ensures AnswersAll(requests, Serve(s, requests, airs).1)
    decreases |requests|
  {
    hide Dispatch, Unanswered, IsRequest, Answers;
    if requests != [] {
      var n := |requests| - 1;
      var earlier := requests[..n];
      AnswersMatchRequests(s, earlier, airs);
      NfcAnsweredOnce(Serve(s, earlier, airs).0, requests[n], airs(n));
      ServeSnoc(s, earlier, requests[n], airs);
      assert earlier + [requests[n]] == requests;
    }
  }

  /**
   What a poll reply says: a target count, and for one target a type, an identifier length and exactly that
   many identifier bytes, which are the ones of the target the reader now holds active.
   */
  lemma PollAnnouncesTarget(s: CardReader.State, request: seq<uint8>, air: Air)
    requires CardReader.WellFormed(s) && IsRequest(request) && request[1] == ADDRESS_NFC && request[3] == POLL
    requires s.radioEnabled && CardReader.Observe(s, air).1.Ok?
    ensures var (s', bodies) := Dispatch(s, request, air);
            && |bodies| == 1 && bodies[0][4] == 0
            && var payload := bodies[0][6..];
               var card := CardReader.Observe(s, air).1.value;
               && (payload[0] == 0 <==> card.cardType.NoCard?)
               && (payload[0] != 0 ==> payload[0] == 1 && |payload| >= 3 && payload[2] as int == |payload| - 3)
               && (card.cardType.Mifare? ==> payload[1] == 0x10 && payload[3..] == s'.activeMifare.uid)
               && (card.cardType.Felica? ==>
                     payload[1] == 0x20 && payload[3..] == s'.activeFelica.idm + s'.activeFelica.pmm)
  {
    hide Pn532.PollFelica, Pn532.PollTypeA, CardReader.ReadBlocks, PollReply;
    CardReader.ObservationsWellFormed(s, air);
    var card := CardReader.Observe(s, air).1.value;
    PollPayload(card);
    assert ReplyBody(request, PollReply(card))[6..] == PollReply(card).payload;
  }

  /** The layout of a poll reply. */
  lemma PollPayload(card: CardReader.Card)
    requires CardReader.Observable(card)
    ensures var payload := PollReply(card).payload;
            && PollReply(card).status == 0 && |payload| <= 19
            && (card.cardType.NoCard? ==> payload == [0])
            && (card.cardType.Mifare? ==>
                  payload[..3] == [1, 0x10, 4] && payload[3..] == card.mifareUid && |payload| == 7)
            && (card.cardType.Felica? ==>
                  payload[..3] == [1, 0x20, 16] && payload[3..] == card.idm + card.pmm && |payload| == 19)
    ensures var payload := PollReply(card).payload;
            !card.cardType.NoCard? ==>
              payload[0] == payload[..3][0] && payload[1] == payload[..3][1] && payload[2] == payload[..3][2]
  {
    if card.cardType.Felica? {
      assert [1, 0x20, 16] + card.idm + card.pmm == [1, 0x20, 16] + (card.idm + card.pmm);
    }
  }

  /** Block data is only ever returned for the selected tag, after authenticating with the chosen key. */
  lemma BlockDataNeedsSelectedTag(s: CardReader.State, request: seq<uint8>, air: Air)
    requires CardReader.WellFormed(s) && IsRequest(request) && request[1] == ADDRESS_NFC && request[3] == READ_BLOCK
    ensures var (s', bodies) := Dispatch(s, request, air);
            var command: uint8 := if s.activeKeyType == CardReader.KEY_AIME then 0x61 else 0x60;
            && s' == s && |bodies| == 1
            && (bodies[0][4] == 0 ==>
                  && |request| == 10 && request[5..9] == s.activeMifare.uid
                  && Pn532.Authenticates(air, 0, s.activeMifare.target, command, request[9],
                                         s.keys[s.activeKeyType], s.activeMifare.uid)
                  && Pn532.MifareReadBlock(air, 1, s.activeMifare.target, request[9]) == Some(bodies[0][6..]))
  {
    hide Pn532.Authenticates, Pn532.MifareReadBlock;
    var payload := request[5..];
    if |payload| == 5 {
      assert payload[..4] == request[5..9];
      var r := CardReader.ReadMifareBlock(s, air, payload[..4], payload[4]);
      if r.Ok? {
        assert ReplyBody(request, Reply(0, r.value))[6..] == r.value;
      }
    }
  }

  lemma DispatchedBodies(s: CardReader.State, frame: seq<uint8>, air: Air)
    requires CardReader.WellFormed(s)
    ensures var bodies := Dispatch(s, frame, air).1;
            |bodies| <= 1 && forall body | body in bodies :: IsBody(body)
  {
  }

  lemma {:induction false} ServedBodies(s: CardReader.State, frames: seq<seq<uint8>>, airs: nat -> Air)
    requires CardReader.WellFormed(s)
    ensures forall body | body in Serve(s, frames, airs).1 :: IsBody(body)
    decreases |frames|
  {
    if frames != [] {
      var n := |frames| - 1;
      ServedBodies(s, frames[..n], airs);
      DispatchedBodies(Serve(s, frames[..n], airs).0, frames[n], airs(n));
    }
  }

  /** No packet is longer than 513 bytes, out of a 520-byte buffer. */
  lemma PacketFits(body: seq<uint8>)
    requires IsBody(body)
    ensures |Frame(body)| <= 513
  {
    StuffedLength(body + [Checksum(body)]);
  }

  /** Packets back to back, with no noise, parse to their bodies. */
  lemma {:induction false} PacketsParse(bodies: seq<seq<uint8>>)
    requires forall body | body in bodies :: IsBody(body)
    ensures Run(RESET, Flatten(Frames(bodies))) == Outcome(RESET, bodies)
    decreases |bodies|
  {
    hide Run, Frame;
    if bodies == [] {
      RunNothing(RESET);
    } else {
      var packets := Frames(bodies);
      assert packets[0] == Frame(bodies[0]) && packets[1..] == Frames(bodies[1..]);
      PacketsParse(bodies[1..]);
      FrameDelivered(RESET, bodies[0]);
      RunConcat(RESET, packets[0], Flatten(packets[1..]));
    }
  }

  /**
   A whole conversation. The host sends any framed requests through any `SYNC`-free noise, cut into
   any chunks; the device dispatches exactly those requests, and what it writes back parses, at the
   host, to exactly its replies in order.
   */
  lemma Conversation(s: CardReader.State, items: seq<Item>, tail: seq<uint8>, chunks: seq<seq<uint8>>, airs: nat -> Air)
    requires CardReader.WellFormed(s) && Transmittable(items) && SYNC !in tail
    requires Flatten(chunks) == Stream(items) + tail
    ensures var received := RunChunks(RESET, chunks);
            var bodies := Serve(s, received.frames, airs).1;
            && received == Outcome(RESET, Bodies(items))
            && Run(RESET, Flatten(Frames(bodies))) == Outcome(RESET, bodies)
  {
    ChunkingIrrelevant(RESET, chunks);
    RoundTrip(items, tail);
    ServedBodies(s, Bodies(items), airs);
    PacketsParse(Serve(s, Bodies(items), airs).1);
  }

  /**
   The size limits agree: a FeliCa request out of a delivered frame lies inside its payload, and no
   size check of the PN532 layer, on the way out or back, can refuse it.
   */
  lemma FelicaNeverRefusedForSize(s: CardReader.State, input: seq<uint8>, request: seq<uint8>, air: Air)
    requires request in Run(RESET, input).frames
    requires IsRequest(request) && FelicaPayloadOk(request[5..])
    ensures 13 + request[13] as int == |request|
    ensures |request[13..]| == request[13]
    ensures Pn532.FelicaTransact(air, 0, s.activeFelica.target, request[13..], FELICA_REPLY_CAPACITY)
            != Err(Pn532.InvalidSize)
  {
    hide Pn532.FelicaTransact;
    DeliveredLengths(RESET, input);
    Pn532.FelicaSizeOk(air, 0, s.activeFelica.target, request[13..], FELICA_REPLY_CAPACITY);
  }
}
