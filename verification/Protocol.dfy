/** The host's PRHP codec: report headers, requests and signals, the version reply, the card state. */
module Protocol {
  import opened Wrappers
  import opened Bytes

  const REPORT_SIZE: nat := 64

  const REQUEST: uint8 := 0x01
  const RESPONSE: uint8 := 0x02
  const SIGNAL: uint8 := 0x03

  const GET_VERSION: uint8 := 0x01
  const CARD_STATE: uint8 := 0x02
  const SET_LED: uint8 := 0x03

  const SUCCESS: uint8 := 0x00
  const UNKNOWN_OPCODE: uint8 := 0x01
  const INVALID_MESSAGE: uint8 := 0x02

  const CARD_NONE: uint8 := 0x00
  const CARD_MIFARE: uint8 := 0x01
  const CARD_FELICA: uint8 := 0x02

  type Report = r: seq<uint8> | |r| == REPORT_SIZE witness Zeros(REPORT_SIZE)

  datatype Error =
    | InvalidReport
    | InvalidType
    | UnexpectedCode
    | UnexpectedType
    | UnknownCard
    | CommandFailed(opcode: uint8, status: uint8)
    | UnknownSequence
    | UnknownSignal

  // ------------------------------------------------------------------ headers

  datatype Header = Header(messageType: uint8, opcode: uint8, sequence: uint16, status: uint8)

  function DecodeHeader(raw: seq<uint8>): (r: Result<Header, Error>)
    ensures r.Ok? ==> |raw| == REPORT_SIZE
  {
    if |raw| != REPORT_SIZE then
      Err(InvalidReport)
    else
      var header := Header(raw[0], raw[1], ReadLe16(raw[2], raw[3]), raw[4]);
      if header.messageType == REQUEST then
        if header.sequence == 0 || header.status != SUCCESS then Err(InvalidReport) else Ok(header)
      else if header.messageType == RESPONSE then
        if header.sequence == 0 then Err(InvalidReport) else Ok(header)
      else if header.messageType == SIGNAL then
        if header.sequence != 0 || header.status != SUCCESS then Err(InvalidReport) else Ok(header)
      else
        Err(InvalidType)
  }

  /** A report with this header and an all-zero body. */
  function Bare(header: Header): Report {
    [header.messageType, header.opcode, header.sequence % 0x100, header.sequence / 0x100, header.status] + Zeros(59)
  }

  /** The header shapes RFC 0001 (PRHP) allows, section 4.1. */
  predicate Shaped(header: Header) {
    match header.messageType
    case 0x01 => header.sequence != 0 && header.status == SUCCESS
    case 0x02 => header.sequence != 0
    case 0x03 => header.sequence == 0 && header.status == SUCCESS
    case _ => false
  }

  /** Decoding undoes encoding for exactly the allowed header shapes, whatever the body holds. */
  lemma HeaderRoundTrip(header: Header, body: seq<uint8>)
    requires |body| == 59
    ensures DecodeHeader(Bare(header)[..5] + body) == Ok(header) <==> Shaped(header)
    ensures DecodeHeader(Bare(header)[..5] + body).Ok? <==> Shaped(header)
  {
    var raw := Bare(header)[..5] + body;
    assert ReadLe16(raw[2], raw[3]) == header.sequence;
  }

  /** Which reports have a header, byte by byte: the sequence is little-endian behind type and opcode. */
  lemma HeaderBytes(raw: seq<uint8>, header: Header)
    ensures DecodeHeader(raw) == Ok(header)
       <==> && |raw| == 64
            && header == Header(raw[0], raw[1], raw[2] as int + 0x100 * raw[3] as int, raw[4])
            && var sequenced := raw[2] != 0 || raw[3] != 0;
               || (raw[0] == 0x01 && sequenced && raw[4] == 0)
               || (raw[0] == 0x02 && sequenced)
               || (raw[0] == 0x03 && !sequenced && raw[4] == 0)
  {
  }

  method NewRequest(opcode: uint8, sequence: uint16) returns (raw: array<uint8>)
    ensures fresh(raw) && raw[..] == Bare(Header(REQUEST, opcode, sequence, SUCCESS))
  {
    raw := new uint8[REPORT_SIZE](i => 0);
    raw[0], raw[1] := REQUEST, opcode;
    raw[2], raw[3] := sequence % 0x100, sequence / 0x100;
  }

  method NewSignal(opcode: uint8) returns (raw: array<uint8>)
    ensures fresh(raw) && raw[..] == Bare(Header(SIGNAL, opcode, 0, SUCCESS))
  {
    raw := new uint8[REPORT_SIZE](i => 0);
    raw[0], raw[1] := SIGNAL, opcode;
  }

  // ------------------------------------------------------------------ version

  datatype Version = Version(major: uint8, minor: uint8)

  function ValidateResponse(raw: seq<uint8>, opcode: uint8): (r: Result<Header, Error>)
    ensures r.Ok? ==> |raw| == REPORT_SIZE
  {
    match DecodeHeader(raw)
    case Err(e) => Err(e)
    case Ok(header) =>
      if header.messageType != RESPONSE then Err(UnexpectedType)
      else if header.opcode != opcode then Err(UnexpectedCode)
      else if header.status != SUCCESS then Err(CommandFailed(header.opcode, header.status))
      else Ok(header)
  }

  function DecodeGetVersionResponse(raw: seq<uint8>): Result<Version, Error> {
    match ValidateResponse(raw, GET_VERSION)
    case Err(e) => Err(e)
    case Ok(_) => Ok(Version(raw[5], raw[6]))
  }

  /** Which reports are version replies, byte by byte, and what they say. */
  lemma VersionBytes(raw: seq<uint8>, version: Version)
    ensures DecodeGetVersionResponse(raw) == Ok(version)
       <==> && |raw| == 64 && raw[0] == 0x02 && raw[1] == 0x01 && (raw[2] != 0 || raw[3] != 0) && raw[4] == 0
            && version == Version(raw[5], raw[6])
  {
    if |raw| == 64 {
      HeaderBytes(raw, Header(raw[0], raw[1], raw[2] as int + 0x100 * raw[3] as int, raw[4]));
    }
  }

  /** Another report with a header is refused for its type first, then for its opcode, then for its status. */
  lemma VersionRefused(raw: seq<uint8>)
    requires DecodeHeader(raw).Ok?
    ensures raw[0] != 0x02 ==> DecodeGetVersionResponse(raw) == Err(UnexpectedType)
    ensures raw[0] == 0x02 && raw[1] != 0x01 ==> DecodeGetVersionResponse(raw) == Err(UnexpectedCode)
    ensures raw[0] == 0x02 && raw[1] == 0x01 && raw[4] != 0 ==>
              DecodeGetVersionResponse(raw) == Err(CommandFailed(0x01, raw[4]))
  {
    HeaderBytes(raw, DecodeHeader(raw).value);
  }

  // --------------------------------------------------------------- card state

  /** The host's card value. */
  datatype Card = Card(cardType: uint8, luid: seq<uint8>, blocks: seq<uint8>, idm: seq<uint8>)

  const NO_CARD := Card(CARD_NONE, Zeros(10), Zeros(32), Zeros(8))

  method ValidateLuid(luid: seq<uint8>) returns (ok: bool)
    ensures ok == AllBcd(luid)
  {
    for i := 0 to |luid|
      invariant AllBcd(luid[..i])
    {
      if luid[i] / 0x10 > 9 || luid[i] % 0x10 > 9 {
        assert !IsBcd(luid[i]);
        return false;
      }
    }
    ok := true;
  }

  function DecodeCardStateSignal(raw: seq<uint8>): Result<Card, Error> {
    match DecodeHeader(raw)
    case Err(e) => Err(e)
    case Ok(header) =>
      if header.messageType != SIGNAL then Err(UnexpectedType)
      else if header.opcode != CARD_STATE then Err(UnexpectedCode)
      else if raw[5] == CARD_NONE then Ok(NO_CARD)
      else if raw[5] == CARD_MIFARE then
        if !AllBcd(raw[6..16]) then Err(InvalidReport)
        else Ok(NO_CARD.(cardType := CARD_MIFARE, luid := raw[6..16], blocks := raw[16..48]))
      else if raw[5] == CARD_FELICA then Ok(NO_CARD.(cardType := CARD_FELICA, idm := raw[6..14]))
      else Err(UnknownCard)
  }

  /** A decimal digit in either nibble. */
  predicate TwoDigits(b: uint8) {
    b / 0x10 < 10 && b % 0x10 < 10
  }

  /**
   Which reports are card states, byte by byte, and the card they give: none, a MIFARE tag with ten bytes of
   decimal digits and 32 of blocks, or a FeliCa card with its eight-byte identifier; no other type is taken.
   */
  lemma CardStateBytes(raw: seq<uint8>, card: Card)
    ensures DecodeCardStateSignal(raw) == Ok(card)
       <==> && |raw| == 64 && raw[..5] == [0x03, 0x02, 0, 0, 0]
            && (|| (raw[5] == 0 && card == Card(0, Zeros(10), Zeros(32), Zeros(8)))
                || (raw[5] == 1 && (forall i | 6 <= i < 16 :: TwoDigits(raw[i]))
                    && card == Card(1, raw[6..16], raw[16..48], Zeros(8)))
                || (raw[5] == 2 && card == Card(2, Zeros(10), Zeros(32), raw[6..14])))
  {
    SignalBytes(raw);
    hide DecodeHeader, AllBcd, TwoDigits;
    if |raw| == 64 {
      LuidDigits(raw);
    }
  }

  /** Why a report is no card state: its header, its type, its opcode, a digit of the LUID, or its card type. */
  lemma CardStateRefused(raw: seq<uint8>)
    ensures DecodeHeader(raw).Err? ==> DecodeCardStateSignal(raw) == Err(DecodeHeader(raw).error)
    ensures DecodeHeader(raw).Ok? && raw[0] != 0x03 ==> DecodeCardStateSignal(raw) == Err(UnexpectedType)
    ensures DecodeHeader(raw).Ok? && raw[0] == 0x03 && raw[1] != 0x02 ==>
              DecodeCardStateSignal(raw) == Err(UnexpectedCode)
    ensures (|raw| == 64 && raw[..5] == [0x03, 0x02, 0, 0, 0] && raw[5] == 1
             && exists i :: 6 <= i < 16 && !TwoDigits(raw[i])) ==> DecodeCardStateSignal(raw) == Err(InvalidReport)
    ensures |raw| == 64 && raw[..5] == [0x03, 0x02, 0, 0, 0] && raw[5] > 2 ==>
              DecodeCardStateSignal(raw) == Err(UnknownCard)
  {
    SignalBytes(raw);
    hide AllBcd, TwoDigits;
    if |raw| == 64 {
      LuidDigits(raw);
    }
  }

  /** Why a report has no header: its length first, then its type, then a sequence or status its type does not allow. */
  lemma HeaderRefused(raw: seq<uint8>)
    ensures |raw| != 64 ==> DecodeHeader(raw) == Err(InvalidReport)
    ensures |raw| == 64 && !(1 <= raw[0] <= 3) ==> DecodeHeader(raw) == Err(InvalidType)
    ensures |raw| == 64 && 1 <= raw[0] <= 3 && DecodeHeader(raw).Err? ==> DecodeHeader(raw) == Err(InvalidReport)
  {
  }

  /** The header of a card-state signal. */
  lemma SignalBytes(raw: seq<uint8>)
    ensures (DecodeHeader(raw).Ok? && DecodeHeader(raw).value.messageType == SIGNAL
             && DecodeHeader(raw).value.opcode == CARD_STATE)
       <==> |raw| == 64 && raw[..5] == [0x03, 0x02, 0, 0, 0]
    ensures DecodeHeader(raw).Ok? ==> |raw| == 64
  {
    if |raw| == 64 {
      assert raw[..5] == [raw[0], raw[1], raw[2], raw[3], raw[4]];
    }
  }

  lemma LuidDigits(raw: seq<uint8>)
    requires |raw| == 64
    ensures AllBcd(raw[6..16]) <==> forall i | 6 <= i < 16 :: TwoDigits(raw[i])
  {
    var luid := raw[6..16];
    assert forall i | 0 <= i < 10 :: luid[i] == raw[6 + i];
    forall i | 6 <= i < 16
      ensures IsBcd(luid[i - 6]) <==> TwoDigits(raw[i])
    {
    }
  }
}
