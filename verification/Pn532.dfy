/**
 The PN532 driver: the normal information frame of the PN532 User Manual (UM0701-02, section
 6.2.1.1), the checks the driver makes on what it receives, and the exchanges built on them. The
 I2C bus is left to an `Air`: for the n-th exchange of a call, any command and any request, it
 may fail or return any buffer at all.
 */
module Pn532 {
  import opened Wrappers
  import opened Bytes

  const HOST_TO_PN532: uint8 := 0xD4
  const PN532_TO_HOST: uint8 := 0xD5
  const RF_CONFIGURATION: uint8 := 0x32
  const IN_DATA_EXCHANGE: uint8 := 0x40
  const IN_LIST_PASSIVE_TARGET: uint8 := 0x4A
  const FRAME_CAPACITY: nat := 280

  datatype Error = BusFailure | InvalidSize | InvalidResponse | InvalidCrc | NotFound | InvalidArgument

  // ------------------------------------------------------------ frame codec

  /** The byte that brings a sum to zero modulo 256. */
  function Complement(x: nat): uint8 {
    if x % 0x100 == 0 then 0 else 0x100 - x % 0x100
  }

  lemma ComplementUnique(x: nat, b: uint8)
    ensures (x + b) % 0x100 == 0 <==> b == Complement(x)
  {
    var high, low := x / 0x100, x % 0x100;
    assert x + b == 0x100 * high + (low + b);
    SmallRemainder(x + b, high, low + b);
  }

  /** The remainder of a number less than 512 above a multiple of 256. */
  lemma SmallRemainder(n: int, high: int, rest: int)
    requires n == 0x100 * high + rest && 0 <= rest < 0x200
    ensures n % 0x100 == if rest < 0x100 then rest else rest - 0x100
  {
    var q := n / 0x100;
    assert n == 0x100 * q + n % 0x100;
  }

  /** The normal information frame for a direction, a code and a payload that fits its length byte. */
  function InformationFrame(direction: uint8, code: uint8, payload: seq<uint8>): (frame: seq<uint8>)
    requires |payload| <= 252
    ensures |frame| == |payload| + 9
  {
    var data := [direction, code] + payload;
    [0x00, 0x00, 0xFF, |data|, Complement(|data|)] + data + [Complement(Total(data)), 0x00]
  }

  lemma DataTotal(direction: uint8, code: uint8, payload: seq<uint8>)
    ensures Total([direction, code] + payload) == direction as int + code as int + Total(payload)
  {
    TotalConcat([direction, code], payload);
    assert [direction, code][..1] == [direction];
    assert Total([direction, code]) == Total([direction]) + code && Total([direction]) == direction;
  }

  /** The frame, byte by byte. */
  predicate IsFrame(frame: seq<uint8>, direction: uint8, code: uint8, payload: seq<uint8>) {
    && |payload| <= 252 && |frame| == |payload| + 9
    && frame[0] == 0x00 && frame[1] == 0x00 && frame[2] == 0xFF
    && frame[3] == |payload| + 2 && frame[4] == Complement(|payload| + 2)
    && frame[5] == direction && frame[6] == code
    && frame[7..7 + |payload|] == payload
    && frame[7 + |payload|] == Complement(direction as int + code as int + Total(payload))
    && frame[8 + |payload|] == 0x00
  }

  /** A whole frame as the manual prints it: the firmware version request. */
  lemma FrameExample()
    ensures InformationFrame(0xD4, 0x02, []) == [0x00, 0x00, 0xFF, 0x02, 0xFE, 0xD4, 0x02, 0x2A, 0x00]
  {
    DataTotal(0xD4, 0x02, []);
  }

  lemma IsFrameMeans(frame: seq<uint8>, direction: uint8, code: uint8, payload: seq<uint8>)
    requires IsFrame(frame, direction, code, payload)
    ensures frame == InformationFrame(direction, code, payload)
  {
    hide Total, Complement;
    DataTotal(direction, code, payload);
    var data := [direction, code] + payload;
    assert frame[5..7 + |payload|] == data;
    assert frame == frame[..5] + frame[5..7 + |payload|] + frame[7 + |payload|..];
    assert frame[..5] == [0x00, 0x00, 0xFF, |data|, Complement(|data|)];
    assert frame[7 + |payload|..] == [Complement(Total(data)), 0x00];
  }

  lemma InformationFrameIs(direction: uint8, code: uint8, payload: seq<uint8>)
    requires |payload| <= 252
    ensures IsFrame(InformationFrame(direction, code, payload), direction, code, payload)
  {
    hide Total, Complement;
    DataTotal(direction, code, payload);
    assert InformationFrame(direction, code, payload)[7..7 + |payload|] == payload;
  }

  /** An 8-bit accumulator keeps the sum modulo 256. */
  lemma AddByte(total: nat, b: uint8)
    ensures (total % 0x100 + b) % 0x100 == (total + b) % 0x100
  {
    SmallRemainder(total % 0x100 + b, 0, total % 0x100 + b);
    SmallRemainder(total + b, total / 0x100, total % 0x100 + b);
  }

  /** Sums a payload onto the direction and code bytes in an 8-bit accumulator. */
  method FrameSum(direction: uint8, code: uint8, payload: seq<uint8>) returns (checksum: uint8)
    ensures checksum == (direction as int + code as int + Total(payload)) % 0x100
  {
    checksum := (direction as int + code as int) % 0x100;
    for i := 0 to |payload|
      invariant checksum == (direction as int + code as int + Total(payload[..i])) % 0x100
    {
      assert payload[..i + 1][..i] == payload[..i];
      AddByte(direction as int + code as int + Total(payload[..i]), payload[i]);
      checksum := (checksum as int + payload[i] as int) % 0x100;
    }
    assert payload[..|payload|] == payload;
  }

  /** Lays preamble, lengths, direction, code and payload into the frame buffer. */
  method FillFrame(frame: array<uint8>, code: uint8, payload: seq<uint8>)
    requires frame.Length == FRAME_CAPACITY && |payload| <= 252
    modifies frame
    ensures frame[0] == 0x00 && frame[1] == 0x00 && frame[2] == 0xFF
    ensures frame[3] == |payload| + 2 && frame[4] == Complement(|payload| + 2)
    ensures frame[5] == HOST_TO_PN532 && frame[6] == code
    ensures frame[7..7 + |payload|] == payload
  {
    frame[0], frame[1], frame[2] := 0x00, 0x00, 0xFF;
    frame[3], frame[4] := |payload| + 2, Complement(|payload| + 2);
    frame[5], frame[6] := HOST_TO_PN532, code;
    forall i | 0 <= i < |payload| {
      frame[7 + i] := payload[i];
    }
  }

  lemma SealedFrame(head: seq<uint8>, direction: uint8, code: uint8, payload: seq<uint8>, checksum: uint8)
    requires |payload| <= 252 && |head| == |payload| + 7
    requires head[..7] == [0x00, 0x00, 0xFF, |payload| + 2, Complement(|payload| + 2), direction, code]
    requires head[7..] == payload
    requires checksum == (direction as int + code as int + Total(payload)) % 0x100
    ensures head + [Complement(checksum), 0x00] == InformationFrame(direction, code, payload)
  {
    hide Total;
    var frame := head + [Complement(checksum), 0x00];
    assert frame[7..7 + |payload|] == head[7..];
    assert forall k :: 0 <= k < 7 ==> frame[k] == head[..7][k];
    IsFrameMeans(frame, direction, code, payload);
  }

  method WriteFrame(code: uint8, payload: seq<uint8>) returns (r: Result<seq<uint8>, Error>)
    ensures r.Ok? <==> |payload| <= 252
    ensures r.Ok? ==> r.value == InformationFrame(HOST_TO_PN532, code, payload)
    ensures r.Err? ==> r.error == InvalidSize
  {
    hide InformationFrame, Total, Complement;
    if |payload| + 2 > 254 {
      return Err(InvalidSize);
    }
    var frame := new uint8[FRAME_CAPACITY];
    FillFrame(frame, code, payload);
    var position := 7 + |payload|;
    ghost var head := frame[..position];
    var checksum := FrameSum(HOST_TO_PN532, code, payload);
    SealedFrame(head, HOST_TO_PN532, code, payload, checksum);
    frame[position], frame[position + 1] := Complement(checksum), 0x00;
    assert frame[..position + 2] == head + [Complement(checksum), 0x00];
    r := Ok(frame[..position + 2]);
  }

  /** The header the checks want: preamble, start code, a length from 2 to 254 and its complement. */
  predicate HeaderOk(buffer: seq<uint8>)
    requires |buffer| >= 5
  {
    && buffer[0] == 0x00 && buffer[1] == 0x00 && buffer[2] == 0xFF
    && 2 <= buffer[3] < 0xFF
    && (buffer[3] as int + buffer[4] as int) % 0x100 == 0
  }

  /** The data checksum and the postamble of a buffer whose header announces its data. */
  predicate TrailerOk(buffer: seq<uint8>)
    requires |buffer| >= 5 && |buffer| >= buffer[3] as int + 7
  {
    var data := buffer[5..5 + buffer[3]];
    (Total(data) + buffer[5 + buffer[3]]) % 0x100 == 0 && buffer[6 + buffer[3] as int] == 0
  }

  /** The payload a received buffer holds for a command, or why the driver refuses it. */
  function Check(buffer: seq<uint8>, code: uint8, capacity: nat): Result<seq<uint8>, Error>
    requires |buffer| >= 5
  {
    if !HeaderOk(buffer) then Err(InvalidResponse)
    else if buffer[3] as int + 7 > |buffer| then Err(InvalidSize)
    else if !TrailerOk(buffer) then Err(InvalidCrc)
    else if buffer[5] != PN532_TO_HOST || buffer[6] as int != (code as int + 1) % 0x100 then Err(InvalidResponse)
    else if buffer[3] - 2 > capacity then Err(InvalidSize)
    else Ok(buffer[7..5 + buffer[3]])
  }

  /** Sums the announced data in an 8-bit accumulator. */
  method DataSum(frame: array<uint8>, dataSize: nat) returns (checksum: uint8)
    requires 5 + dataSize <= frame.Length
    ensures checksum == Checksum(frame[5..5 + dataSize])
  {
    hide Checksum;
    checksum := 0;
    ChecksumNothing();
    assert frame[5..5] == [];
    for i := 0 to dataSize
      invariant checksum == Checksum(frame[5..5 + i])
    {
      ChecksumSnoc(frame[5..5 + i], frame[5 + i]);
      assert frame[5..5 + i + 1] == frame[5..5 + i] + [frame[5 + i]];
      checksum := (checksum as int + frame[5 + i] as int) % 0x100;
    }
  }

  /** The response checks, as the driver makes them on its receive buffer. */
  method CheckResponse(frame: array<uint8>, code: uint8, capacity: nat) returns (r: Result<seq<uint8>, Error>)
    requires frame.Length >= 5
    ensures r == Check(frame[..], code, capacity)
  {
    if frame[0] != 0x00 || frame[1] != 0x00 || frame[2] != 0xFF {
      return Err(InvalidResponse);
    }
    var dataSize: int := frame[3];
    if dataSize < 2 || dataSize == 0xFF || (frame[3] as int + frame[4] as int) % 0x100 != 0 {
      return Err(InvalidResponse);
    }
    if 5 + dataSize + 2 > frame.Length {
      return Err(InvalidSize);
    }
    var checksum := DataSum(frame, dataSize);
    assert frame[..][5..5 + dataSize] == frame[5..5 + dataSize];
    if (checksum as int + frame[5 + dataSize] as int) % 0x100 != 0 || frame[5 + dataSize + 1] != 0 {
      return Err(InvalidCrc);
    }
    if frame[5] != PN532_TO_HOST || frame[6] as int != (code as int + 1) % 0x100 {
      return Err(InvalidResponse);
    }
    var payloadSize := dataSize - 2;
    if payloadSize > capacity {
      return Err(InvalidSize);
    }
    assert frame[7..7 + payloadSize] == frame[..][7..5 + dataSize];
    r := Ok(frame[7..7 + payloadSize]);
  }

  /** The reply code of a command, `0xFF` wrapping to `0x00`. */
  function ReplyCode(code: uint8): uint8 {
    if code == 0xFF then 0 else code + 1
  }

  /**
   The checks accept exactly the information frames: a buffer yields payload `p` if and only if it
   begins with the information frame for the reply direction, the reply code and `p`, and `p` fits
   both the length byte and the caller.
   */
  lemma AcceptsExactlyFrames(buffer: seq<uint8>, code: uint8, capacity: nat, p: seq<uint8>)
    requires |buffer| >= 5
    ensures Check(buffer, code, capacity) == Ok(p)
       <==> |p| <= 252 && |p| <= capacity && InformationFrame(PN532_TO_HOST, ReplyCode(code), p) <= buffer
  {
    hide Check, InformationFrame;
    if Check(buffer, code, capacity) == Ok(p) {
      AcceptedIsFrame(buffer, code, capacity, p);
    }
    if |p| <= 252 && |p| <= capacity && InformationFrame(PN532_TO_HOST, ReplyCode(code), p) <= buffer {
      FrameIsAccepted(buffer, code, capacity, p);
    }
  }

  lemma AcceptedIsFrame(buffer: seq<uint8>, code: uint8, capacity: nat, p: seq<uint8>)
    requires |buffer| >= 5 && Check(buffer, code, capacity) == Ok(p)
    ensures |p| <= 252 && |p| <= capacity && InformationFrame(PN532_TO_HOST, ReplyCode(code), p) <= buffer
  {
    hide Total, InformationFrame, Complement;
    ComplementUnique(buffer[3], buffer[4]);
    ComplementUnique(Total(buffer[5..5 + buffer[3]]), buffer[5 + buffer[3]]);
    var frame := buffer[..|p| + 9];
    assert buffer[5..5 + buffer[3]] == [PN532_TO_HOST, ReplyCode(code)] + p;
    DataTotal(PN532_TO_HOST, ReplyCode(code), p);
    assert frame[7..7 + |p|] == p;
    IsFrameMeans(frame, PN532_TO_HOST, ReplyCode(code), p);
  }

  lemma FrameIsAccepted(buffer: seq<uint8>, code: uint8, capacity: nat, p: seq<uint8>)
    requires |buffer| >= 5
    requires |p| <= 252 && |p| <= capacity && InformationFrame(PN532_TO_HOST, ReplyCode(code), p) <= buffer
    ensures Check(buffer, code, capacity) == Ok(p)
  {
    hide Total, InformationFrame, Complement;
    ComplementUnique(buffer[3], buffer[4]);
    ComplementUnique(PN532_TO_HOST as int + ReplyCode(code) as int + Total(p), buffer[7 + |p|]);
    var frame := InformationFrame(PN532_TO_HOST, ReplyCode(code), p);
    InformationFrameIs(PN532_TO_HOST, ReplyCode(code), p);
    DataTotal(PN532_TO_HOST, ReplyCode(code), p);
    assert buffer[..|frame|] == frame;
    assert buffer[7..7 + |p|] == frame[7..7 + |p|];
    assert buffer[5..7 + |p|] == [PN532_TO_HOST, ReplyCode(code)] + p;
  }

  lemma HeaderChange(buffer: seq<uint8>, i: nat, b: uint8)
    requires |buffer| >= 5 && HeaderOk(buffer) && i < 5 && b != buffer[i]
    ensures !HeaderOk(buffer[i := b])
  {
  }

  lemma TrailerChange(buffer: seq<uint8>, i: nat, b: uint8)
    requires |buffer| >= 5 && |buffer| >= buffer[3] as int + 7 && TrailerOk(buffer)
    requires 5 <= i <= buffer[3] as int + 6 && b != buffer[i]
    ensures !TrailerOk(buffer[i := b])
  {
    var changed := buffer[i := b];
    var end := 5 + buffer[3] as int;
    if i < end {
      assert changed[5..end] == buffer[5..end][i - 5 := b];
      TotalUpdate(buffer[5..end], i - 5, b);
    } else {
      assert changed[5..end] == buffer[5..end];
    }
  }

  /**
   Changing any one byte of an accepted frame, preamble to postamble, makes the checks refuse it: as no response
   if the byte is of the header, else for its sum or postamble.
   */
  lemma ByteChangeRejected(buffer: seq<uint8>, code: uint8, capacity: nat, i: nat, b: uint8)
    requires |buffer| >= 5 && Check(buffer, code, capacity).Ok?
    requires i < |Check(buffer, code, capacity).value| + 9 && b != buffer[i]
    ensures Check(buffer[i := b], code, capacity) == Err(if i < 5 then InvalidResponse else InvalidCrc)
  {
    hide TrailerOk;
    if i < 5 {
      HeaderChange(buffer, i, b);
    } else {
      TrailerChange(buffer, i, b);
    }
  }

  /**
   A receive buffer of the driver's size is never too short for the length it announces: a size is refused only
   for want of the caller's capacity.
   */
  lemma BufferAlwaysLongEnough(buffer: Buffer, code: uint8, capacity: nat)
    ensures buffer[3] as int + 7 <= |buffer|
    ensures Check(buffer, code, capacity) == Err(InvalidSize) ==> buffer[3] as int - 2 > capacity
  {
    hide TrailerOk;
  }

  /** An acknowledge frame (UM0701-02, section 6.2.1.3) is never taken for a response. */
  lemma AckIsNoResponse(buffer: seq<uint8>, code: uint8, capacity: nat)
    requires [0x00, 0x00, 0xFF, 0x00, 0xFF, 0x00] <= buffer
    ensures Check(buffer, code, capacity) == Err(InvalidResponse)
  {
    assert buffer[3] == [0x00, 0x00, 0xFF, 0x00, 0xFF, 0x00][3];
  }

  // -------------------------------------------------------------- exchanges

  type Buffer = b: seq<uint8> | |b| == FRAME_CAPACITY witness Zeros(FRAME_CAPACITY)

  /** One command round: the bus fails somewhere, or a response buffer is read. */
  datatype Exchange = Failed | Received(buffer: Buffer)

  /** The outcome of the n-th exchange of a call, for the command and request that were sent. */
  type Air = (nat, uint8, seq<uint8>) -> Exchange

  function Command(air: Air, n: nat, code: uint8, request: seq<uint8>, capacity: nat): Result<seq<uint8>, Error> {
    if |request| + 2 > 254 then
      Err(InvalidSize)
    else
      match air(n, code, request)
      case Failed => Err(BusFailure)
      case Received(buffer) => Check(buffer, code, capacity)
  }

  datatype TypeATarget = TypeATarget(target: uint8, uid: seq<uint8>, sak: uint8, atqa: uint16)

  datatype FelicaTarget = FelicaTarget(target: uint8, idm: seq<uint8>, pmm: seq<uint8>)

  function SetRadio(air: Air, n: nat, enabled: bool): Result<seq<uint8>, Error> {
    Command(air, n, RF_CONFIGURATION, [0x01, if enabled then 0x01 else 0x00], 8)
  }

  function PollTypeA(air: Air, n: nat): (r: Result<Option<TypeATarget>, Error>)
    ensures r.Ok? && r.value.Some? ==> |r.value.value.uid| <= 10
  {
    match Command(air, n, IN_LIST_PASSIVE_TARGET, [0x01, 0x00], 64)
    case Err(e) => Err(e)
    case Ok(response) =>
      if |response| == 0 || response[0] == 0 then Ok(None)
      else if |response| < 6 then Err(InvalidResponse)
      else if response[5] > 10 || |response| < 6 + response[5] as int then Err(InvalidResponse)
      else
        Ok(Some(TypeATarget(response[1], response[6..6 + response[5] as int], response[4],
                            0x100 * response[2] as int + response[3] as int)))
  }

  function PollFelica(air: Air, n: nat, systemCode: uint16): (r: Result<Option<FelicaTarget>, Error>)
    ensures r.Ok? && r.value.Some? ==> |r.value.value.idm| == 8 && |r.value.value.pmm| == 8
  {
    var request := [0x01, 0x01, 0x00, systemCode / 0x100, systemCode % 0x100, 0x01, 0x00];
    match Command(air, n, IN_LIST_PASSIVE_TARGET, request, 64)
    case Err(e) => Err(e)
    case Ok(response) =>
      if |response| == 0 || response[0] == 0 then Ok(None)
      else if |response| < 21 || response[2] < 18 then Err(InvalidResponse)
      else Ok(Some(FelicaTarget(response[1], response[4..12], response[12..20])))
  }

  predicate Authenticates(air: Air, n: nat, target: uint8, command: uint8, block: uint8,
                          key: seq<uint8>, uid: seq<uint8>)
  {
    var r := Command(air, n, IN_DATA_EXCHANGE, [target, command, block] + key + uid, 8);
    r.Ok? && |r.value| >= 1 && r.value[0] == 0
  }

  function MifareReadBlock(air: Air, n: nat, target: uint8, block: uint8): (r: Option<seq<uint8>>)
    ensures r.Some? ==> |r.value| == 16
  {
    var r := Command(air, n, IN_DATA_EXCHANGE, [target, 0x30, block], 20);
    if r.Err? || |r.value| < 17 || r.value[0] != 0 then None else Some(r.value[1..17])
  }

  function FelicaTransact(air: Air, n: nat, target: uint8, request: seq<uint8>, capacity: nat)
    : (r: Result<seq<uint8>, Error>)
    ensures r.Ok? ==> |r.value| <= capacity
  {
    if |request| + 1 > 254 then
      Err(InvalidSize)
    else
      match Command(air, n, IN_DATA_EXCHANGE, [target] + request, 255)
      case Err(e) => Err(e)
      case Ok(raw) =>
        if |raw| < 1 || raw[0] != 0 || |raw| - 1 > capacity then Err(InvalidResponse) else Ok(raw[1..])
  }

  /** A FeliCa request of at most 251 bytes passes every size check there and back. */
  lemma FelicaSizeOk(air: Air, n: nat, target: uint8, request: seq<uint8>, capacity: nat)
    requires |request| <= 251
    ensures FelicaTransact(air, n, target, request, capacity) != Err(InvalidSize)
  {
    hide Check;
    var exchange := air(n, IN_DATA_EXCHANGE, [target] + request);
    if exchange.Received? {
      BufferAlwaysLongEnough(exchange.buffer, IN_DATA_EXCHANGE, 255);
    }
  }

  /** A received payload, as the device frames it, comes back from the exchange unchanged. */
  lemma ExchangeRoundTrip(air: Air, n: nat, code: uint8, request: seq<uint8>, capacity: nat, p: seq<uint8>)
    requires |request| <= 252 && |p| <= 252 && air(n, code, request).Received?
    requires InformationFrame(PN532_TO_HOST, ReplyCode(code), p) <= air(n, code, request).buffer
    ensures Command(air, n, code, request, capacity) == if |p| <= capacity then Ok(p) else Err(InvalidSize)
  {
    var buffer := air(n, code, request).buffer;
    FrameIsAccepted(buffer, code, |p|, p);
  }

  /** What an exchange carries for a command: the payload of the information frame its buffer begins with. */
  ghost predicate Carries(exchange: Exchange, code: uint8, p: seq<uint8>) {
    exchange.Received? && |p| <= 252 && InformationFrame(PN532_TO_HOST, ReplyCode(code), p) <= exchange.buffer
  }

  lemma CommandCarries(air: Air, n: nat, code: uint8, request: seq<uint8>, capacity: nat, p: seq<uint8>)
    requires |request| <= 252
    ensures Command(air, n, code, request, capacity) == Ok(p)
       <==> Carries(air(n, code, request), code, p) && |p| <= capacity
  {
    hide Check, InformationFrame;
    if air(n, code, request).Received? {
      AcceptsExactlyFrames(air(n, code, request).buffer, code, capacity, p);
    }
  }

  /** What the chip returns for a payload, in the driver's receive buffer. */
  function Framed(code: uint8, payload: seq<uint8>): Exchange
    requires |payload| <= 252
  {
    Received(InformationFrame(PN532_TO_HOST, ReplyCode(code), payload) + Zeros(271 - |payload|))
  }

  lemma FramedCarries(code: uint8, payload: seq<uint8>)
    requires |payload| <= 252
    ensures Carries(Framed(code, payload), code, payload)
  {
    hide InformationFrame;
  }

  lemma FramedReceived(air: Air, n: nat, code: uint8, request: seq<uint8>, capacity: nat, payload: seq<uint8>)
    requires |request| <= 252 && |payload| <= 252 && |payload| <= capacity
    requires air(n, code, request) == Framed(code, payload)
    ensures Command(air, n, code, request, capacity) == Ok(payload)
  {
    hide Command, Framed, Carries;
    FramedCarries(code, payload);
    CommandCarries(air, n, code, request, capacity, payload);
  }

  lemma CarriedFits(exchange: Exchange, code: uint8, p: seq<uint8>)
    ensures Carries(exchange, code, p) ==> |p| <= 252
  {
  }

  // The exchanges byte by byte: the request on the bus, and what the chip must frame for each outcome.

  /** The poll for one FeliCa target at 212 kbps that answers this system code. */
  function FelicaPollBytes(systemCode: uint16): seq<uint8> {
    [0x01, 0x01, 0x00, systemCode / 0x100, systemCode % 0x100, 0x01, 0x00]
  }

  /** The chip reports that no target answered. */
  ghost predicate NoTarget(exchange: Exchange) {
    exists p: seq<uint8> :: Carries(exchange, 0x4A, p) && |p| <= 64 && (p == [] || p[0] == 0)
  }

  /** The chip reports this FeliCa target. */
  ghost predicate FelicaShown(exchange: Exchange, t: FelicaTarget) {
    exists p: seq<uint8> ::
      && Carries(exchange, 0x4A, p)
      && 21 <= |p| <= 64 && p[0] != 0 && p[1] == t.target && p[2] >= 18 && p[4..12] == t.idm && p[12..20] == t.pmm
  }

  /** The chip reports this Type A target. */
  ghost predicate TypeAShown(exchange: Exchange, t: TypeATarget) {
    exists p: seq<uint8> ::
      && Carries(exchange, 0x4A, p)
      && 6 <= |p| <= 64 && p[0] != 0 && p[1] == t.target
      && t.atqa == 0x100 * p[2] as int + p[3] as int && p[4] == t.sak
      && p[5] == |t.uid| <= 10 && t.uid <= p[6..]
  }

  /** The tag accepts the key. */
  ghost predicate KeyAccepted(exchange: Exchange) {
    exists p: seq<uint8> :: Carries(exchange, 0x40, p) && 1 <= |p| <= 8 && p[0] == 0
  }

  /** The tag returns this block. */
  ghost predicate BlockShown(exchange: Exchange, data: seq<uint8>) {
    |data| == 16 && exists more: seq<uint8> :: |more| <= 3 && Carries(exchange, 0x40, [0] + data + more)
  }

  /** An empty field is a success without a target, and nothing else is. */
  lemma FelicaMissExactly(air: Air, n: nat, systemCode: uint16)
    ensures PollFelica(air, n, systemCode) == Ok(None) <==> NoTarget(air(n, 0x4A, FelicaPollBytes(systemCode)))
  {
    hide Command, Carries;
    PollOutcome(air, n, FelicaPollBytes(systemCode));
  }

  lemma FelicaFoundExactly(air: Air, n: nat, systemCode: uint16, t: FelicaTarget)
    ensures PollFelica(air, n, systemCode) == Ok(Some(t))
       <==> FelicaShown(air(n, 0x4A, FelicaPollBytes(systemCode)), t)
  {
    hide Command, Carries;
    PollOutcome(air, n, FelicaPollBytes(systemCode));
  }

  lemma TypeAMissExactly(air: Air, n: nat)
    ensures PollTypeA(air, n) == Ok(None) <==> NoTarget(air(n, 0x4A, [0x01, 0x00]))
  {
    hide Command, Carries;
    PollOutcome(air, n, [0x01, 0x00]);
  }

  lemma TypeAFoundExactly(air: Air, n: nat, t: TypeATarget)
    ensures PollTypeA(air, n) == Ok(Some(t)) <==> TypeAShown(air(n, 0x4A, [0x01, 0x00]), t)
  {
    hide Command, Carries;
    PollOutcome(air, n, [0x01, 0x00]);
    var exchange := air(n, 0x4A, [0x01, 0x00]);
    var r := Command(air, n, IN_LIST_PASSIVE_TARGET, [0x01, 0x00], 64);
    if PollTypeA(air, n) == Ok(Some(t)) {
      assert t.uid == r.value[6..][..|t.uid|];
    }
    if TypeAShown(exchange, t) {
      TypeACarried(exchange, t, r);
    }
  }

  /** The identifier is where its length byte says. */
  lemma TypeACarried(exchange: Exchange, t: TypeATarget, r: Result<seq<uint8>, Error>)
    requires TypeAShown(exchange, t)
    requires forall p: seq<uint8> :: (r == Ok(p) <==> Carries(exchange, 0x4A, p) && |p| <= 64)
    ensures r.Ok? && |r.value| >= 6 && r.value[0] != 0 && r.value[1] == t.target && r.value[4] == t.sak
    ensures t.atqa == 0x100 * r.value[2] as int + r.value[3] as int
    ensures r.value[5] == |t.uid| <= 10 && |r.value| >= 6 + |t.uid| && r.value[6..6 + |t.uid|] == t.uid
  {
    hide Carries;
    var p: seq<uint8> :| && Carries(exchange, 0x4A, p)
                         && 6 <= |p| <= 64 && p[0] != 0 && p[1] == t.target
                         && t.atqa == 0x100 * p[2] as int + p[3] as int && p[4] == t.sak
                         && p[5] == |t.uid| <= 10 && t.uid <= p[6..];
    assert r == Ok(p);
    assert p[6..][..|t.uid|] == t.uid;
  }

  /** Why a poll fails: the bus, an answer of more than 64 bytes, or a target that is not described in full. */
  lemma PollErrors(air: Air, n: nat, systemCode: uint16, p: seq<uint8>)
    ensures var exchange := air(n, 0x4A, FelicaPollBytes(systemCode));
            && (exchange.Failed? ==> PollFelica(air, n, systemCode) == Err(BusFailure))
            && (Carries(exchange, 0x4A, p) && |p| > 64 ==> PollFelica(air, n, systemCode) == Err(InvalidSize))
            && (Carries(exchange, 0x4A, p) && 0 < |p| <= 64 && p[0] != 0 && (|p| < 21 || p[2] < 18) ==>
                  PollFelica(air, n, systemCode) == Err(InvalidResponse))
    ensures var exchange := air(n, 0x4A, [0x01, 0x00]);
            && (exchange.Failed? ==> PollTypeA(air, n) == Err(BusFailure))
            && (Carries(exchange, 0x4A, p) && |p| > 64 ==> PollTypeA(air, n) == Err(InvalidSize))
            && ((Carries(exchange, 0x4A, p) && 0 < |p| <= 64 && p[0] != 0
                 && (|p| < 6 || p[5] > 10 || |p| < 6 + p[5] as int)) ==> PollTypeA(air, n) == Err(InvalidResponse))
  {
    hide Check, InformationFrame;
    if Carries(air(n, 0x4A, FelicaPollBytes(systemCode)), 0x4A, p) {
      ExchangeRoundTrip(air, n, 0x4A, FelicaPollBytes(systemCode), 64, p);
    }
    if Carries(air(n, 0x4A, [0x01, 0x00]), 0x4A, p) {
      ExchangeRoundTrip(air, n, 0x4A, [0x01, 0x00], 64, p);
    }
  }

  /** Why a FeliCa exchange fails: the bus, or a status, or more data than the caller has room for. */
  lemma FelicaErrors(air: Air, n: nat, target: uint8, request: seq<uint8>, capacity: nat, p: seq<uint8>)
    requires |request| <= 251
    ensures var exchange := air(n, 0x40, [target] + request);
            && (exchange.Failed? ==> FelicaTransact(air, n, target, request, capacity) == Err(BusFailure))
            && (Carries(exchange, 0x40, p) && (p == [] || p[0] != 0 || |p| - 1 > capacity) ==>
                  FelicaTransact(air, n, target, request, capacity) == Err(InvalidResponse))
  {
    hide Check, InformationFrame;
    if Carries(air(n, 0x40, [target] + request), 0x40, p) {
      ExchangeRoundTrip(air, n, 0x40, [target] + request, 255, p);
    }
  }

  /** A FeliCa request of more than 253 bytes is refused without an exchange, one of 252 or 253 in framing it. */
  lemma FelicaTooLong(air: Air, n: nat, target: uint8, request: seq<uint8>, capacity: nat)
    ensures |request| > 251 ==> FelicaTransact(air, n, target, request, capacity) == Err(InvalidSize)
  {
  }

  /** A poll succeeds with exactly the payload carried, of at most 64 bytes. */
  lemma PollOutcome(air: Air, n: nat, request: seq<uint8>)
    requires |request| <= 252
    ensures var r := Command(air, n, IN_LIST_PASSIVE_TARGET, request, 64);
            forall p: seq<uint8> :: (r == Ok(p) <==> Carries(air(n, 0x4A, request), 0x4A, p) && |p| <= 64)
  {
    hide Command, Carries;
    forall p: seq<uint8>
      ensures Command(air, n, IN_LIST_PASSIVE_TARGET, request, 64) == Ok(p)
         <==> Carries(air(n, 0x4A, request), 0x4A, p) && |p| <= 64
    {
      CommandCarries(air, n, IN_LIST_PASSIVE_TARGET, request, 64, p);
    }
  }

  /** The radio is switched exactly if the chip acknowledges the RF field item with the matching byte. */
  lemma RadioSwitchedExactly(air: Air, n: nat, enabled: bool)
    ensures SetRadio(air, n, enabled).Ok?
       <==> exists p: seq<uint8> :: Carries(air(n, 0x32, [0x01, if enabled then 0x01 else 0x00]), 0x32, p) && |p| <= 8
  {
    hide Command, Carries;
    var request := [0x01, if enabled then 0x01 else 0x00];
    forall p: seq<uint8>
      ensures Command(air, n, RF_CONFIGURATION, request, 8) == Ok(p)
         <==> Carries(air(n, 0x32, request), 0x32, p) && |p| <= 8
    {
      CommandCarries(air, n, RF_CONFIGURATION, request, 8, p);
    }
    var r := Command(air, n, RF_CONFIGURATION, request, 8);
    if r.Ok? {
      assert Carries(air(n, 0x32, request), 0x32, r.value);
    }
  }

  /** Authentication sends target, command, block, key and identifier, and takes any zero status for success. */
  lemma AuthenticatesExactly(air: Air, n: nat, target: uint8, command: uint8, block: uint8, key: seq<uint8>,
                             uid: seq<uint8>)
    requires |key| == 6 && |uid| == 4
    ensures Authenticates(air, n, target, command, block, key, uid)
       <==> KeyAccepted(air(n, 0x40, [target, command, block] + key + uid))
  {
    hide Command, Carries;
    var request := [target, command, block] + key + uid;
    forall p: seq<uint8>
      ensures Command(air, n, IN_DATA_EXCHANGE, request, 8) == Ok(p)
         <==> Carries(air(n, 0x40, request), 0x40, p) && |p| <= 8
    {
      CommandCarries(air, n, IN_DATA_EXCHANGE, request, 8, p);
    }
  }

  /** A FeliCa exchange returns exactly what the chip framed behind a zero status byte. */
  lemma FelicaTransactExactly(air: Air, n: nat, target: uint8, request: seq<uint8>, capacity: nat, data: seq<uint8>)
    requires |request| <= 251
    ensures FelicaTransact(air, n, target, request, capacity) == Ok(data)
       <==> Carries(air(n, 0x40, [target] + request), 0x40, [0] + data) && |data| <= capacity
  {
    hide Command, Carries;
    var sent := [target] + request;
    CommandCarries(air, n, IN_DATA_EXCHANGE, sent, 255, [0] + data);
    var r := Command(air, n, IN_DATA_EXCHANGE, sent, 255);
    assert ([0] + data)[1..] == data;
    if r.Ok? && |r.value| >= 1 && r.value[0] == 0 {
      assert r.value == [0] + r.value[1..];
    }
    CarriedFits(air(n, 0x40, sent), 0x40, [0] + data);
  }

  /** A block is read exactly when the chip framed it behind a zero status byte, with at most three bytes behind it. */
  lemma BlockReadExactly(air: Air, n: nat, target: uint8, block: uint8, data: seq<uint8>)
    ensures MifareReadBlock(air, n, target, block) == Some(data)
       <==> BlockShown(air(n, 0x40, [target, 0x30, block]), data)
  {
    hide Command, Carries;
    var exchange := air(n, 0x40, [target, 0x30, block]);
    var r := Command(air, n, IN_DATA_EXCHANGE, [target, 0x30, block], 20);
    if MifareReadBlock(air, n, target, block) == Some(data) {
      CommandCarries(air, n, IN_DATA_EXCHANGE, [target, 0x30, block], 20, r.value);
      assert r.value == [0] + data + r.value[17..];
    }
    forall more: seq<uint8> | |data| == 16 && |more| <= 3 && Carries(exchange, 0x40, [0] + data + more)
      ensures MifareReadBlock(air, n, target, block) == Some(data)
    {
      CommandCarries(air, n, IN_DATA_EXCHANGE, [target, 0x30, block], 20, [0] + data + more);
      assert ([0] + data + more)[1..17] == data;
    }
  }

  /** A FeliCa target as the chip reports it (one target, polling response with system code) is read back. */
  lemma FelicaTargetRoundTrip(air: Air, n: nat, systemCode: uint16, t: FelicaTarget, answered: seq<uint8>)
    requires |t.idm| == 8 && |t.pmm| == 8 && |answered| == 2
    requires var request := [0x01, 0x01, 0x00, systemCode / 0x100, systemCode % 0x100, 0x01, 0x00];
             Carries(air(n, IN_LIST_PASSIVE_TARGET, request), IN_LIST_PASSIVE_TARGET,
                     [1, t.target, 20, 1] + t.idm + t.pmm + answered)
    ensures PollFelica(air, n, systemCode) == Ok(Some(t))
  {
    hide Command, Carries;
    var request := [0x01, 0x01, 0x00, systemCode / 0x100, systemCode % 0x100, 0x01, 0x00];
    var response := [1, t.target, 20, 1] + t.idm + t.pmm + answered;
    CommandCarries(air, n, IN_LIST_PASSIVE_TARGET, request, 64, response);
    assert response[4..12] == t.idm && response[12..20] == t.pmm;
  }

  /** A Type A target with an identifier of at most ten bytes is read back. */
  lemma TypeATargetRoundTrip(air: Air, n: nat, t: TypeATarget)
    requires |t.uid| <= 10
    requires Carries(air(n, IN_LIST_PASSIVE_TARGET, [0x01, 0x00]), IN_LIST_PASSIVE_TARGET,
                     [1, t.target, t.atqa / 0x100, t.atqa % 0x100, t.sak, |t.uid|] + t.uid)
    ensures PollTypeA(air, n) == Ok(Some(t))
  {
    hide Command, Carries;
    var response := [1, t.target, t.atqa / 0x100, t.atqa % 0x100, t.sak, |t.uid|] + t.uid;
    CommandCarries(air, n, IN_LIST_PASSIVE_TARGET, [0x01, 0x00], 64, response);
    assert response[6..6 + |t.uid|] == t.uid;
  }
}
