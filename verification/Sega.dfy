/**
 The SEGA CDC device: the streaming receiver, the request dispatcher and the response encoder as one
 object over a byte buffer, and the request-reply laws of what it dispatches.
 */
module Sega {
  import opened Wrappers
  import opened Bytes
  import opened SegaFraming
  import Pn532
  import CardReader

  type Air = Pn532.Air

  const ADDRESS_NFC: uint8 := 0x00
  const ADDRESS_LED: uint8 := 0x08

  const GET_FW_VERSION: uint8 := 0x30
  const GET_HW_VERSION: uint8 := 0x32
  const RADIO_ON: uint8 := 0x40
  const RADIO_OFF: uint8 := 0x41
  const POLL: uint8 := 0x42
  const SELECT_TAG: uint8 := 0x43
  const SET_KEY_AIME: uint8 := 0x50
  const AUTHENTICATE_AIME: uint8 := 0x51
  const READ_BLOCK: uint8 := 0x52
  const SET_KEY_BANA: uint8 := 0x54
  const AUTHENTICATE_BANA: uint8 := 0x55
  const TO_UPDATE_MODE: uint8 := 0x60
  const SEND_HEX_DATA: uint8 := 0x61
  const NFC_RESET: uint8 := 0x62
  const FELICA_ENCAP: uint8 := 0x71
  const LED_SET_COLOR: uint8 := 0x81
  const LED_GET_INFO: uint8 := 0xF0
  const LED_RESET: uint8 := 0xF5

  const FW_VERSION: seq<uint8> := [0x94]
  const HW_VERSION: seq<uint8> := [0x38, 0x33, 0x37, 0x2D, 0x31, 0x35, 0x32, 0x38, 0x36]
  const LED_VERSION: seq<uint8> := [0x30, 0x30, 0x30, 0x2D, 0x30, 0x30, 0x30, 0x30, 0x30, 0xFF, 0x11, 0x40]

  const MAX_REPLY_PAYLOAD: nat := 249
  const FELICA_REPLY_CAPACITY: nat := 250

  // ------------------------------------------------------------------ replies

  /** A status and payload handed to `send_response`. */
  datatype Reply = Reply(status: uint8, payload: seq<uint8>)

  function ReplyBody(request: seq<uint8>, reply: Reply): (body: seq<uint8>)
    requires |request| >= 4 && |reply.payload| <= MAX_REPLY_PAYLOAD
    ensures IsBody(body)
  {
    var n := |reply.payload|;
    [6 + n, request[1], request[2], request[3], reply.status, n] + reply.payload
  }

  /** The bodies a `send_response` call puts on the wire: one, or none when the payload is too long. */
  function ReplyBodies(request: seq<uint8>, reply: Reply): seq<seq<uint8>>
    requires |request| >= 4
  {
    if |reply.payload| > MAX_REPLY_PAYLOAD then [] else [ReplyBody(request, reply)]
  }

  /** `SYNC` and a stuffed prefix, as the output buffer grows. */
  function Opened(s: seq<uint8>): seq<uint8> {
    [SYNC] + Stuff(s)
  }

  lemma OpenedSnoc(s: seq<uint8>, b: uint8)
    ensures Opened(s + [b]) == Opened(s) + StuffByte(b)
  {
    var stuffed := Stuff(s);
    StuffSnoc(s, b);
    assert [SYNC] + (stuffed + StuffByte(b)) == [SYNC] + stuffed + StuffByte(b);
  }

  function Frames(bodies: seq<seq<uint8>>): seq<seq<uint8>> {
    seq(|bodies|, i requires 0 <= i < |bodies| => Frame(bodies[i]))
  }

  lemma FramesConcat(a: seq<seq<uint8>>, b: seq<seq<uint8>>)
    ensures Frames(a + b) == Frames(a) + Frames(b)
  {
  }

  // ----------------------------------------------------------------- dispatch

  function StatusOf<T>(r: Result<T, Pn532.Error>): Reply {
    Reply(if r.Ok? then 0 else 1, [])
  }

  function PollReply(card: CardReader.Card): Reply {
    match card.cardType
    case Mifare => Reply(0, [1, 0x10, 4] + card.mifareUid)
    case Felica => Reply(0, [1, 0x20, 16] + card.idm + card.pmm)
    case NoCard => Reply(0, [0])
  }

  /** The FeliCa payload rule: eight prefix bytes, then a block that announces its own length. */
  predicate FelicaPayloadOk(payload: seq<uint8>) {
    |payload| >= 9 && |payload| == 8 + payload[8] as int
  }

  function KeyType(command: uint8): nat {
    if command == SET_KEY_AIME || command == AUTHENTICATE_AIME then CardReader.KEY_AIME else CardReader.KEY_BANA
  }

  /** What an NFC command does to the reader, and the one reply it is answered with. */
  function HandleNfc(s: CardReader.State, command: uint8, payload: seq<uint8>, air: Air): (CardReader.State, Reply)
    requires CardReader.WellFormed(s)
  {
    if command == NFC_RESET then (s, Reply(3, []))
    else if command == GET_FW_VERSION then (s, Reply(0, FW_VERSION))
    else if command == GET_HW_VERSION then (s, Reply(0, HW_VERSION))
    else if command == RADIO_ON || command == RADIO_OFF then
      var (s', r) := CardReader.SetRadioEnabled(s, air, command == RADIO_ON);
      (s', StatusOf(r))
    else if command == POLL then
      var (s', r) := CardReader.Observe(s, air);
      (s', if r.Ok? then PollReply(r.value) else Reply(1, []))
    else if command == SELECT_TAG then
      (s, if |payload| != 4 then Reply(1, []) else StatusOf(CardReader.SelectMifare(s, payload)))
    else if command == SET_KEY_AIME || command == SET_KEY_BANA then
      if |payload| != 6 then (s, Reply(1, []))
      else (s.(keys := s.keys[KeyType(command) := payload]), Reply(0, []))
    else if command == AUTHENTICATE_AIME || command == AUTHENTICATE_BANA then
      (s.(activeKeyType := KeyType(command)), Reply(0, []))
    else if command == READ_BLOCK then
      if |payload| != 5 then (s, Reply(1, []))
      else
        var r := CardReader.ReadMifareBlock(s, air, payload[..4], payload[4]);
        (s, if r.Ok? then Reply(0, r.value) else Reply(1, []))
    else if command == FELICA_ENCAP then
      if !FelicaPayloadOk(payload) then (s, Reply(1, []))
      else
        var r := Pn532.FelicaTransact(air, 0, s.activeFelica.target, payload[8..], FELICA_REPLY_CAPACITY);
        (s, if r.Ok? then Reply(0, r.value) else Reply(1, []))
    else if command == TO_UPDATE_MODE then (s, Reply(0, []))
    else if command == SEND_HEX_DATA then (s, Reply(if |payload| == 0x2B then 0x20 else 0, []))
    else (s, Reply(1, []))
  }

  function HandleLed(command: uint8): Option<Reply> {
    if command == LED_SET_COLOR then None
    else if command == LED_RESET then Some(Reply(0, [0]))
    else if command == LED_GET_INFO then Some(Reply(0, LED_VERSION))
    else Some(Reply(1, []))
  }

  /** A delivered frame that is a request: header, announced payload length, matching size. */
  predicate IsRequest(frame: seq<uint8>) {
    |frame| >= 5 && frame[0] == |frame| && frame[4] == |frame| - 5
  }

  /** One delivered frame: the reader state it leaves and the bodies sent back. */
  function Dispatch(s: CardReader.State, frame: seq<uint8>, air: Air): (r: (CardReader.State, seq<seq<uint8>>))
    requires CardReader.WellFormed(s)
    ensures CardReader.WellFormed(r.0)
  {
    if !IsRequest(frame) then (s, [])
    else if frame[1] == ADDRESS_NFC then
      var (s', reply) := HandleNfc(s, frame[3], frame[5..], air);
      (s', ReplyBodies(frame, reply))
    else if frame[1] == ADDRESS_LED then
      match HandleLed(frame[3])
      case None => (s, [])
      case Some(reply) => (s, ReplyBodies(frame, reply))
    else (s, [])
  }

  /** A list of delivered frames in order, the k-th one seeing `airs(k)`. */
  function Serve(s: CardReader.State, frames: seq<seq<uint8>>, airs: nat -> Air)
    : (r: (CardReader.State, seq<seq<uint8>>))
    requires CardReader.WellFormed(s)
    ensures CardReader.WellFormed(r.0)
    decreases |frames|
  {
    if frames == [] then
      (s, [])
    else
      var n := |frames| - 1;
      var (s', bodies) := Serve(s, frames[..n], airs);
      var (s'', more) := Dispatch(s', frames[n], airs(n));
      (s'', bodies + more)
  }

  // ------------------------------------------------------------- whole streams

  /** The device's abstract state at some moment. */
  datatype Snapshot = Snapshot(parser: State, reader: CardReader.State,
                               dispatched: seq<seq<uint8>>, sent: seq<seq<uint8>>)

  /** One received byte: the parser steps, and a frame it completes is dispatched and answered. */
  function ReceiveOne(now: Snapshot, b: uint8, air: Air): Snapshot
    requires CardReader.WellFormed(now.reader)
  {
    var o := Step(now.parser, b);
    if o.frames == [] then
      now.(parser := o.state)
    else
      var (s', bodies) := Dispatch(now.reader, o.frames[0], air);
      Snapshot(o.state, s', now.dispatched + [o.frames[0]], now.sent + Frames(bodies))
  }

  /** A whole received chunk, seen at once: one parser run, its frames served in order. */
  function ReceiveAll(was: Snapshot, data: seq<uint8>, airs: nat -> Air): (now: Snapshot)
    requires CardReader.WellFormed(was.reader)
    ensures CardReader.WellFormed(now.reader)
  {
    var o := Run(was.parser, data);
    var (s', bodies) := Serve(was.reader, o.frames, airs);
    Snapshot(o.state, s', was.dispatched + o.frames, was.sent + Frames(bodies))
  }

  lemma ServeSnoc(s: CardReader.State, frames: seq<seq<uint8>>, frame: seq<uint8>, airs: nat -> Air)
    requires CardReader.WellFormed(s)
    ensures var (s', bodies) := Serve(s, frames, airs);
            var (s'', more) := Dispatch(s', frame, airs(|frames|));
            Serve(s, frames + [frame], airs) == (s'', bodies + more)
  {
    hide Dispatch;
    assert (frames + [frame])[..|frames|] == frames;
  }

  lemma ReceiveNothing(was: Snapshot, airs: nat -> Air)
    requires CardReader.WellFormed(was.reader)
    ensures ReceiveAll(was, [], airs) == was && Run(was.parser, []).frames == []
  {
    hide Dispatch;
  }

  lemma ReceiveSnoc(was: Snapshot, data: seq<uint8>, b: uint8, airs: nat -> Air)
    requires CardReader.WellFormed(was.reader)
    ensures var now := ReceiveAll(was, data, airs);
            var n := |Run(was.parser, data).frames|;
            && ReceiveAll(was, data + [b], airs) == ReceiveOne(now, b, airs(n))
            && |Run(was.parser, data + [b]).frames| == n + |Step(now.parser, b).frames|
  {
    hide Dispatch, Step;
    RunSnoc(was.parser, data, b);
    var o := Run(was.parser, data);
    var last := Step(o.state, b);
    if last.frames == [] {
      assert o.frames + [] == o.frames;
    } else {
      var n := |o.frames|;
      var (s', bodies) := Serve(was.reader, o.frames, airs);
      var more := Dispatch(s', last.frames[0], airs(n)).1;
      assert last.frames == [last.frames[0]];
      ServeSnoc(was.reader, o.frames, last.frames[0], airs);
      FramesConcat(bodies, more);
      ConcatAssociative(was.dispatched, o.frames, last.frames);
      ConcatAssociative(was.sent, Frames(bodies), Frames(more));
    }
  }

  // --------------------------------------------------------------- the device

  class Device {
    var synchronized: bool
    var escaped: bool
    const bytes: array<uint8>
    var size: nat
    const reader: CardReader.Reader
    var sent: seq<seq<uint8>>                // the CDC packets written so far
    ghost var dispatched: seq<seq<uint8>>    // the checksum-valid frames handed to dispatch so far

    ghost predicate Valid()
      reads this, reader
    {
      bytes.Length == CAPACITY && size <= CAPACITY && reader.Valid()
    }

    ghost function Abs(): State
      reads this, bytes, reader
      requires Valid()
    {
      State(synchronized, escaped, bytes[..size])
    }

    constructor (reader: CardReader.Reader)
      requires reader.Valid()
      ensures Valid() && fresh(bytes) && this.reader == reader
      ensures Abs() == RESET && sent == [] && dispatched == []
    {
      this.reader := reader;
      bytes := new uint8[CAPACITY];
      synchronized, escaped, size := false, false, 0;
      sent, dispatched := [], [];
    }

    static method EncodeByte(b: uint8, output: array<uint8>, size: nat) returns (newSize: nat)
      requires size + 2 <= output.Length
      modifies output
      ensures size <= newSize <= size + 2
      ensures output[..newSize] == old(output[..size]) + StuffByte(b)
    {
      if b == ESCAPE || b == SYNC {
        output[size] := ESCAPE;
        output[size + 1] := b - 1;
        newSize := size + 2;
      } else {
        output[size] := b;
        newSize := size + 1;
      }
    }

    /** Encodes a decoded body into the 520-byte output buffer, which it never overruns. */
    static method EncodeFrame(decoded: seq<uint8>) returns (packet: seq<uint8>)
      requires |decoded| <= 0xFF
      ensures packet == Frame(decoded) && |packet| <= 513
    {
      var encoded := new uint8[520];
      encoded[0] := SYNC;
      var encodedSize := 1;
      var checksum: uint8 := 0;
      for i := 0 to |decoded|
        invariant 1 <= encodedSize <= 1 + 2 * i
        invariant encoded[..encodedSize] == Opened(decoded[..i])
        invariant checksum == Checksum(decoded[..i])
      {
        assert decoded[..i + 1] == decoded[..i] + [decoded[i]];
        OpenedSnoc(decoded[..i], decoded[i]);
        ChecksumSnoc(decoded[..i], decoded[i]);
        checksum := (checksum as int + decoded[i] as int) % 0x100;
        encodedSize := EncodeByte(decoded[i], encoded, encodedSize);
      }
      assert decoded[..|decoded|] == decoded;
      OpenedSnoc(decoded, checksum);
      encodedSize := EncodeByte(checksum, encoded, encodedSize);
      packet := encoded[..encodedSize];
    }

    method SendResponse(request: seq<uint8>, status: uint8, payload: seq<uint8>)
      requires |request| >= 4
      modifies this`sent
      ensures sent == old(sent) + Frames(ReplyBodies(request, Reply(status, payload)))
    {
      if |payload| > MAX_REPLY_PAYLOAD {
        return;
      }
      var decoded := [6 + |payload|, request[1], request[2], request[3], status, |payload|] + payload;
      var packet := EncodeFrame(decoded);
      sent := sent + [packet];
    }

    method DispatchLed(request: seq<uint8>)
      requires |request| >= 4
      modifies this`sent
      ensures var r := HandleLed(request[3]);
              sent == old(sent) + Frames(if r.Some? then ReplyBodies(request, r.value) else [])
    {
      if request[3] == LED_SET_COLOR {
      } else if request[3] == LED_RESET {
        SendResponse(request, 0, [0]);
      } else if request[3] == LED_GET_INFO {
        SendResponse(request, 0, LED_VERSION);
      } else {
        SendResponse(request, 1, []);
      }
    }

    method DispatchNfc(request: seq<uint8>, payload: seq<uint8>, air: Air)
      requires Valid() && |request| >= 4
      modifies this`sent, reader
      ensures Valid()
      ensures var (s', reply) := HandleNfc(old(reader.Abs()), request[3], payload, air);
              reader.Abs() == s' && sent == old(sent) + Frames(ReplyBodies(request, reply))
    {
      hide ReplyBodies, Frames;
      var command := request[3];
      var failed := false;
      if command == NFC_RESET {
        SendResponse(request, 3, []);
        return;
      } else if command == GET_FW_VERSION {
        SendResponse(request, 0, FW_VERSION);
        return;
      } else if command == GET_HW_VERSION {
        SendResponse(request, 0, HW_VERSION);
        return;
      } else if command == RADIO_ON || command == RADIO_OFF {
        var r := reader.RadioSet(air, command == RADIO_ON);
        failed := r.Err?;
      } else if command == POLL {
        var r := reader.ReadCard(air);
        if r.Ok? {
          var card := r.value;
          if card.cardType.Mifare? {
            SendResponse(request, 0, [1, 0x10, 4] + card.mifareUid);
          } else if card.cardType.Felica? {
            SendResponse(request, 0, [1, 0x20, 16] + card.idm + card.pmm);
          } else {
            SendResponse(request, 0, [0]);
          }
          return;
        }
        failed := true;
      } else if command == SELECT_TAG {
        failed := |payload| != 4 || CardReader.SelectMifare(reader.Abs(), payload).Err?;
      } else if command == SET_KEY_AIME || command == SET_KEY_BANA {
        if |payload| != 6 {
          failed := true;
        } else {
          var r := reader.MifareSetKey(KeyType(command), payload);
          failed := r.Err?;
        }
      } else if command == AUTHENTICATE_AIME || command == AUTHENTICATE_BANA {
        var r := reader.MifareAuthenticate(KeyType(command));
        failed := r.Err?;
      } else if command == READ_BLOCK {
        failed := true;
        if |payload| == 5 {
          var r := CardReader.ReadMifareBlock(reader.Abs(), air, payload[..4], payload[4]);
          if r.Ok? {
            SendResponse(request, 0, r.value);
            return;
          }
        }
      } else if command == FELICA_ENCAP {
        failed := true;
        if FelicaPayloadOk(payload) {
          var r := Pn532.FelicaTransact(air, 0, reader.activeFelica.target, payload[8..], FELICA_REPLY_CAPACITY);
          if r.Ok? {
            SendResponse(request, 0, r.value);
            return;
          }
        }
      } else if command == TO_UPDATE_MODE {
      } else if command == SEND_HEX_DATA {
        SendResponse(request, if |payload| == 0x2B then 0x20 else 0, []);
        return;
      } else {
        failed := true;
      }
      SendResponse(request, if failed then 1 else 0, []);
    }

    method DispatchFrame(request: seq<uint8>, air: Air)
      requires Valid()
      modifies this`sent, reader, this`dispatched
      ensures Valid()
      ensures var (s', bodies) := Dispatch(old(reader.Abs()), request, air);
              reader.Abs() == s' && sent == old(sent) + Frames(bodies)
      ensures dispatched == old(dispatched) + [request]
    {
      dispatched := dispatched + [request];
      if |request| < 5 || request[0] != |request| || request[4] != |request| - 5 {
        return;
      }
      if request[1] == ADDRESS_NFC {
        DispatchNfc(request, request[5..], air);
      } else if request[1] == ADDRESS_LED {
        DispatchLed(request);
      }
    }

    method ResetParser()
      requires Valid()
      modifies this`synchronized, this`escaped, this`size
      ensures Valid() && Abs() == RESET
    {
      synchronized, escaped, size := false, false, 0;
    }

    /** Sums the stored bytes but the last one. */
    method StoredSum() returns (checksum: uint8)
      requires Valid() && size > 0
      ensures checksum == Checksum(bytes[..size - 1])
    {
      hide Checksum;
      checksum := 0;
      ChecksumNothing();
      assert bytes[..0] == [];
      for j := 0 to size - 1
        invariant checksum == Checksum(bytes[..j])
      {
        ChecksumSnoc(bytes[..j], bytes[j]);
        assert bytes[..j + 1] == bytes[..j] + [bytes[j]];
        checksum := (checksum as int + bytes[j] as int) % 0x100;
      }
    }

    /** One byte of the receive loop; a frame it completes is returned for dispatch. */
    method ReceiveByte(input: uint8) returns (frame: Option<seq<uint8>>)
      requires Valid()
      modifies this`synchronized, this`escaped, this`size, bytes
      ensures Valid()
      ensures var o := Step(old(Abs()), input);
              Abs() == o.state && o.frames == if frame.Some? then [frame.value] else []
    {
      hide Checksum;
      var b := input;
      frame := None;
      if !synchronized {
        if b == SYNC {
          synchronized, size := true, 0;
        }
        return;
      }
      if !escaped && b == SYNC {
        size := 0;
        return;
      }
      if !escaped && b == ESCAPE {
        escaped := true;
        return;
      }
      if escaped {
        b := Next(b);
        escaped := false;
      }
      if size >= bytes.Length {
        ResetParser();
        return;
      }
      bytes[size] := b;
      size := size + 1;
      ghost var stored := bytes[..size];
      assert stored == old(bytes[..size]) + [b];
      var expected := bytes[0] as int + 1;
      if size == expected {
        var checksum := StoredSum();
        assert stored[..size - 1] == bytes[..size - 1];
        if checksum == bytes[size - 1] {
          frame := Some(bytes[..size - 1]);
        }
        ResetParser();
      } else if size > expected {
        ResetParser();
      }
    }

    ghost function Now(): Snapshot
      reads this, bytes, reader
      requires Valid()
    {
      Snapshot(Abs(), reader.Abs(), dispatched, sent)
    }

    /** One iteration of the receive loop, dispatching the frame it may complete. */
    method ProcessByte(input: uint8, air: Air) returns (completed: bool)
      requires Valid()
      modifies this`synchronized, this`escaped, this`size, this`sent, this`dispatched, bytes, reader
      ensures Valid() && Now() == ReceiveOne(old(Now()), input, air)
      ensures |Step(old(Now()).parser, input).frames| == if completed then 1 else 0
    {
      hide Dispatch, Step;
      var frame := ReceiveByte(input);
      completed := frame.Some?;
      if completed {
        DispatchFrame(frame.value, air);
      }
    }

    /**
     `sega_receive`: whatever the chunk, the parser ends where one run over all its bytes ends, the
     frames dispatched are that run's frames, and the packets sent are the encoded replies to them.
     */
    method Receive(data: seq<uint8>, airs: nat -> Air)
      requires Valid()
      modifies this`synchronized, this`escaped, this`size, this`sent, this`dispatched, bytes, reader
      ensures Valid() && Now() == ReceiveAll(old(Now()), data, airs)
    {
      hide ReceiveAll, ReceiveOne, Step, Run;
      ghost var was := Now();
      ReceiveNothing(was, airs);
      assert data[..0] == [];
      var count := 0;
      for i := 0 to |data|
        invariant Valid() && Now() == ReceiveAll(was, data[..i], airs)
        invariant count == |Run(was.parser, data[..i]).frames|
      {
        ReceiveSnoc(was, data[..i], data[i], airs);
        assert data[..i + 1] == data[..i] + [data[i]];
        var completed := ProcessByte(data[i], airs(count));
        count := if completed then count + 1 else count;
      }
      assert data[..|data|] == data;
    }
  }
}
