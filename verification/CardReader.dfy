/**
 The card reader: the FeliCa system-code search, the Aime and Banapass key attempts, and the
 observation they add up to. `Reader` is the firmware's object; the functions on `State` specify it.
 */
module CardReader {
  import opened Wrappers
  import opened Bytes
  import opened Pn532

  const TRANSIT: uint16 := 0x0003
  const WILDCARD: uint16 := 0xFFFF
  const KEY_AIME: nat := 0
  const KEY_BANA: nat := 1
  const DEFAULT_AIME_KEY: seq<uint8> := [0x57, 0x43, 0x43, 0x46, 0x76, 0x32]
  const DEFAULT_BANA_KEY: seq<uint8> := [0x60, 0x90, 0xD0, 0x06, 0x32, 0xF5]

  datatype CardType = NoCard | Mifare | Felica {
    function Code(): uint8 {
      match this case NoCard => 0 case Mifare => 1 case Felica => 2
    }
  }

  /** One observation, as `reader_card_t` holds it. */
  datatype Card = Card(cardType: CardType, mifareUid: seq<uint8>, luid: seq<uint8>, blocks: seq<uint8>,
                       idm: seq<uint8>, pmm: seq<uint8>, hasBlocks: bool)

  const EMPTY := Card(NoCard, Zeros(4), Zeros(10), Zeros(32), Zeros(8), Zeros(8), false)

  // ------------------------------------------------------- access code check

  /** Twenty decimal digits, not all zero, the first one not 3. */
  predicate ValidLuid(luid: seq<uint8>)
    requires |luid| == 10
  {
    AllBcd(luid) && luid != Zeros(10) && luid[0] / 0x10 != 3
  }

  method CheckLuid(luid: seq<uint8>) returns (ok: bool)
    requires |luid| == 10
    ensures ok == ValidLuid(luid)
  {
    var nonzero := false;
    for i := 0 to 10
      invariant AllBcd(luid[..i])
      invariant nonzero <==> luid[..i] != Zeros(i)
    {
      if luid[i] / 0x10 > 9 || luid[i] % 0x10 > 9 {
        assert !IsBcd(luid[i]);
        return false;
      }
      assert luid[..i + 1] == luid[..i] + [luid[i]];
      assert Zeros(i + 1) == Zeros(i) + [0];
      if luid[i] != 0 {
        assert luid[..i + 1][i] != Zeros(i + 1)[i];
      } else if nonzero {
        assert luid[..i + 1][..i] != Zeros(i + 1)[..i];
      }
      nonzero := nonzero || luid[i] != 0;
    }
    assert luid[..10] == luid;
    ok := nonzero && luid[0] / 0x10 != 3;
  }

  // ------------------------------------------------------------ reader state

  datatype State = State(keys: seq<seq<uint8>>, activeKeyType: nat, activeMifare: TypeATarget,
                         activeFelica: FelicaTarget, systemCode: uint16, radioEnabled: bool)

  const INITIAL := State([DEFAULT_AIME_KEY, DEFAULT_BANA_KEY], KEY_AIME, TypeATarget(0, [], 0, 0),
                         FelicaTarget(0, Zeros(8), Zeros(8)), TRANSIT, true)

  predicate WellFormed(s: State) {
    && |s.keys| == 2 && |s.keys[0]| == |s.keys[1]| == 6
    && s.activeKeyType < 2
    && s.systemCode in {TRANSIT, WILDCARD}
  }

  function OtherCode(code: uint16): uint16 {
    if code == TRANSIT then WILDCARD else TRANSIT
  }

  /** Whether both blocks were read, and what the block buffer holds either way. */
  function ReadBlocks(air: Air, slot: nat, target: TypeATarget, command: uint8, block: uint8,
                      key: seq<uint8>, blocks: seq<uint8>): (r: (bool, seq<uint8>))
    requires |blocks| == 32
    ensures |r.1| == 32
  {
    if !Authenticates(air, slot, target.target, command, block, key, target.uid) then
      (false, blocks)
    else
      match MifareReadBlock(air, slot + 1, target.target, 1)
      case None => (false, blocks)
      case Some(first) =>
        match MifareReadBlock(air, slot + 2, target.target, 2)
        case None => (false, first + blocks[16..])
        case Some(second) => (true, first + second)
  }

  /** The observation made of a MIFARE tag: Aime key first, then the Banapass key. */
  function MifareCard(keys: seq<seq<uint8>>, air: Air, target: TypeATarget): Card
    requires |keys| == 2
  {
    var seen := EMPTY.(cardType := Mifare, mifareUid := target.uid);
    var aime := ReadBlocks(air, 2, target, 0x61, 2, keys[KEY_AIME], Zeros(32));
    if aime.0 then
      var luid := aime.1[22..32];
      seen.(blocks := aime.1, hasBlocks := true, luid := if ValidLuid(luid) then luid else Zeros(10))
    else
      var bana := ReadBlocks(air, 5, target, 0x60, 1, keys[KEY_BANA], Zeros(32));
      seen.(blocks := bana.1, hasBlocks := bana.0)
  }

  /** One call of `reader_read_card`: the state it leaves, and the observation or the failure. */
  function Observe(s: State, air: Air): (State, Result<Card, Error>)
    requires WellFormed(s)
  {
    if !s.radioEnabled then
      (s, Ok(EMPTY))
    else
      match PollFelica(air, 0, s.systemCode)
      case Ok(Some(target)) =>
        (s.(activeFelica := target), Ok(EMPTY.(cardType := Felica, idm := target.idm, pmm := target.pmm)))
      case poll =>
        var s' := if poll.Ok? then s.(systemCode := OtherCode(s.systemCode)) else s;
        match PollTypeA(air, 1)
        case Err(e) => (s', Err(e))
        case Ok(None) => (s', Ok(EMPTY))
        case Ok(Some(target)) =>
          (s'.(activeMifare := target), Ok(if |target.uid| != 4 then EMPTY else MifareCard(s.keys, air, target)))
  }

  /** `reader_radio_set`: the flag follows the hardware only when the command succeeded. */
  function SetRadioEnabled(s: State, air: Air, enabled: bool): (State, Result<(), Error>) {
    match SetRadio(air, 0, enabled)
    case Err(e) => (s, Err(e))
    case Ok(_) => (s.(radioEnabled := enabled), Ok(()))
  }

  function SelectMifare(s: State, uid: seq<uint8>): Result<(), Error> {
    if |s.activeMifare.uid| != 4 || s.activeMifare.uid != uid then Err(NotFound) else Ok(())
  }

  function ReadMifareBlock(s: State, air: Air, uid: seq<uint8>, block: uint8): (r: Result<seq<uint8>, Error>)
    requires WellFormed(s)
    ensures r.Ok? ==> |r.value| == 16
  {
    var command: uint8 := if s.activeKeyType == KEY_AIME then 0x61 else 0x60;
    match SelectMifare(s, uid)
    case Err(e) => Err(e)
    case Ok(_) =>
      if !Authenticates(air, 0, s.activeMifare.target, command, block, s.keys[s.activeKeyType], s.activeMifare.uid) then
        Err(InvalidResponse)
      else
        match MifareReadBlock(air, 1, s.activeMifare.target, block)
        case None => Err(InvalidResponse)
        case Some(data) => Ok(data)
  }

  // --------------------------------------------------------- the reader object

  class Reader {
    var keys: seq<seq<uint8>>
    var activeKeyType: nat
    var activeMifare: TypeATarget
    var activeFelica: FelicaTarget
    var systemCode: uint16
    var radioEnabled: bool

    function Abs(): State
      reads this
    {
      State(keys, activeKeyType, activeMifare, activeFelica, systemCode, radioEnabled)
    }

    ghost predicate Valid()
      reads this
    {
      WellFormed(Abs())
    }

    constructor ()
      ensures Valid() && Abs() == INITIAL
      ensures keys == [[0x57, 0x43, 0x43, 0x46, 0x76, 0x32], [0x60, 0x90, 0xD0, 0x06, 0x32, 0xF5]]
      ensures activeKeyType == 0 && activeMifare.uid == [] && systemCode == 0x0003 && radioEnabled
    {
      keys := [DEFAULT_AIME_KEY, DEFAULT_BANA_KEY];
      activeKeyType := KEY_AIME;
      activeMifare := TypeATarget(0, [], 0, 0);
      activeFelica := FelicaTarget(0, Zeros(8), Zeros(8));
      systemCode := TRANSIT;
      radioEnabled := true;
    }

    method ReadMifareWithKey(air: Air, slot: nat, target: TypeATarget, command: uint8, block: uint8,
                             key: seq<uint8>, card: Card) returns (ok: bool, read: Card)
      requires |card.blocks| == 32
      ensures var r := ReadBlocks(air, slot, target, command, block, key, card.blocks);
              && ok == r.0
              && read == card.(blocks := r.1, hasBlocks := card.hasBlocks || r.0)
    {
      read := card;
      ok := Authenticates(air, slot, target.target, command, block, key, target.uid);
      if !ok {
        return;
      }
      var first := MifareReadBlock(air, slot + 1, target.target, 1);
      if first.None? {
        return false, read;
      }
      read := read.(blocks := first.value + read.blocks[16..]);
      var second := MifareReadBlock(air, slot + 2, target.target, 2);
      if second.None? {
        return false, read;
      }
      read := read.(blocks := read.blocks[..16] + second.value, hasBlocks := true);
    }

    method ReadCard(air: Air) returns (r: Result<Card, Error>)
      requires Valid()
      modifies this
      ensures Valid() && (Abs(), r) == Observe(old(Abs()), air)
    {
      var card := EMPTY;
      if !radioEnabled {
        return Ok(card);
      }
      var felica := PollFelica(air, 0, systemCode);
      if felica.Ok? {
        if felica.value.Some? {
          activeFelica := felica.value.value;
          return Ok(card.(cardType := Felica, idm := activeFelica.idm, pmm := activeFelica.pmm));
        }
        systemCode := if systemCode == TRANSIT then WILDCARD else TRANSIT;
      }
      var typeA := PollTypeA(air, 1);
      if typeA.Err? {
        return Err(typeA.error);
      }
      if typeA.value.None? {
        return Ok(card);
      }
      activeMifare := typeA.value.value;
      if |activeMifare.uid| != 4 {
        return Ok(card);
      }
      card := card.(cardType := Mifare, mifareUid := activeMifare.uid);
      var ok: bool;
      ok, card := ReadMifareWithKey(air, 2, activeMifare, 0x61, 2, keys[KEY_AIME], card);
      if ok {
        card := card.(luid := card.blocks[22..32]);
        var valid := CheckLuid(card.luid);
        if !valid {
          card := card.(luid := Zeros(10));
        }
        return Ok(card);
      }
      card := card.(blocks := Zeros(32), hasBlocks := false);
      ok, card := ReadMifareWithKey(air, 5, activeMifare, 0x60, 1, keys[KEY_BANA], card);
      r := Ok(card);
    }

    method RadioSet(air: Air, enabled: bool) returns (r: Result<(), Error>)
      requires Valid()
      modifies this
      ensures Valid() && (Abs(), r) == SetRadioEnabled(old(Abs()), air, enabled)
    {
      var switched := SetRadio(air, 0, enabled);
      if switched.Err? {
        return Err(switched.error);
      }
      radioEnabled := enabled;
      r := Ok(());
    }

    method MifareSetKey(keyType: nat, key: seq<uint8>) returns (r: Result<(), Error>)
      requires Valid() && |key| == 6
      modifies this
      ensures Valid()
      ensures r == if keyType > KEY_BANA then Err(InvalidArgument) else Ok(())
      ensures Abs() == if keyType > KEY_BANA then old(Abs()) else old(Abs()).(keys := old(keys)[keyType := key])
    {
      if keyType > KEY_BANA {
        return Err(InvalidArgument);
      }
      keys := keys[keyType := key];
      r := Ok(());
    }

    method MifareAuthenticate(keyType: nat) returns (r: Result<(), Error>)
      requires Valid()
      modifies this
      ensures Valid()
      ensures r == if keyType > KEY_BANA then Err(InvalidArgument) else Ok(())
      ensures Abs() == if keyType > KEY_BANA then old(Abs()) else old(Abs()).(activeKeyType := keyType)
    {
      if keyType > KEY_BANA {
        return Err(InvalidArgument);
      }
      activeKeyType := keyType;
      r := Ok(());
    }
  }

  // ------------------------------------------------------------ observations

  /** What every observation looks like, whatever bytes came over the air. */
  predicate Observable(card: Card) {
    && |card.mifareUid| == 4 && |card.luid| == 10 && |card.blocks| == 32 && |card.idm| == 8 && |card.pmm| == 8
    && AllBcd(card.luid)
    && (card.luid != Zeros(10) ==> ValidLuid(card.luid))
    && (card.cardType.NoCard? ==> card == EMPTY)
    && (card.cardType.Felica? ==> card == EMPTY.(cardType := Felica, idm := card.idm, pmm := card.pmm))
    && (card.cardType.Mifare? ==> card.idm == card.pmm == Zeros(8))
    && (card.luid != Zeros(10) ==> card.hasBlocks && card.luid == card.blocks[22..32])
  }

  lemma ObservationsWellFormed(s: State, air: Air)
    requires WellFormed(s)
    ensures WellFormed(Observe(s, air).0)
    ensures Observe(s, air).1.Ok? ==> Observable(Observe(s, air).1.value)
  {
  }

  /** The Aime access code is kept exactly when the Aime key opened both blocks and it is valid. */
  lemma AccessCodeKept(s: State, air: Air)
    requires WellFormed(s) && s.radioEnabled
    requires Observe(s, air).1.Ok? && Observe(s, air).1.value.cardType.Mifare?
    ensures var card := Observe(s, air).1.value;
            var target := Observe(s, air).0.activeMifare;
            var aime := ReadBlocks(air, 2, target, 0x61, 2, s.keys[KEY_AIME], Zeros(32));
            card.luid != Zeros(10) <==> aime.0 && ValidLuid(aime.1[22..32])
  {
  }

  /** The blocks are those of the first key that opened both: Aime, else Banapass; without either, none. */
  lemma BlocksKept(s: State, air: Air)
    requires WellFormed(s) && s.radioEnabled
    requires Observe(s, air).1.Ok? && Observe(s, air).1.value.cardType.Mifare?
    ensures var card := Observe(s, air).1.value;
            var target := Observe(s, air).0.activeMifare;
            var aime := ReadBlocks(air, 2, target, 0x61, 2, s.keys[KEY_AIME], Zeros(32));
            var bana := ReadBlocks(air, 5, target, 0x60, 1, s.keys[KEY_BANA], Zeros(32));
            && card.mifareUid == target.uid
            && (card.hasBlocks <==> aime.0 || bana.0)
            && (card.hasBlocks ==> card.blocks == if aime.0 then aime.1 else bana.1)
  {
  }

  // ------------------------------------------------------- system-code search

  /** The calls that change the reader's state, from scans and from SEGA requests alike. */
  datatype Op =
    | Scan(air: Air)
    | Radio(radioAir: Air, enabled: bool)
    | SetKey(keyType: nat, key: seq<uint8>)
    | UseKey(useType: nat)

  function Apply(s: State, op: Op): (s': State)
    requires WellFormed(s)
    ensures WellFormed(s')
  {
    match op
    case Scan(air) => Observe(s, air).0
    case Radio(air, enabled) => SetRadioEnabled(s, air, enabled).0
    case SetKey(keyType, key) => if keyType > KEY_BANA || |key| != 6 then s else s.(keys := s.keys[keyType := key])
    case UseKey(keyType) => if keyType > KEY_BANA then s else s.(activeKeyType := keyType)
  }

  function After(s: State, ops: seq<Op>): (s': State)
    requires WellFormed(s)
    ensures WellFormed(s')
  {
    if ops == [] then s else Apply(After(s, ops[..|ops| - 1]), ops[|ops| - 1])
  }

  /**
   The system code moves, from either of the two to the other, exactly when a scan with the radio on polls for
   it and the chip reports that nothing answered.
   */
  lemma CodeMovesExactly(s: State, op: Op)
    requires WellFormed(s)
    ensures s.systemCode == 0x0003 || s.systemCode == 0xFFFF
    ensures Apply(s, op).systemCode != s.systemCode
       <==> op.Scan? && s.radioEnabled && NoTarget(op.air(0, 0x4A, FelicaPollBytes(s.systemCode)))
  {
    hide PollFelica, PollTypeA, MifareCard, NoTarget;
    if op.Scan? {
      FelicaMissExactly(op.air, 0, s.systemCode);
    }
  }

  /** A poll for this code shows a FeliCa target. */
  ghost predicate Answered(air: Air, code: uint16) {
    exists target :: FelicaShown(air(0, 0x4A, FelicaPollBytes(code)), target)
  }

  /** The field around a card that answers these system codes: a target for each of them, and none for the others. */
  ghost predicate Presents(air: Air, answers: set<uint16>) {
    forall code: uint16 | code == 0x0003 || code == 0xFFFF ::
      if code in answers then Answered(air, code) else NoTarget(air(0, 0x4A, FelicaPollBytes(code)))
  }

  /** A scan with the radio on finds a FeliCa card exactly if its poll shows one. */
  lemma FindsExactly(s: State, air: Air)
    requires WellFormed(s) && s.radioEnabled
    ensures var r := Observe(s, air).1; r.Ok? && r.value.cardType.Felica? <==> Answered(air, s.systemCode)
  {
    hide PollFelica, PollTypeA, FelicaShown, ReadBlocks;
    var poll := PollFelica(air, 0, s.systemCode);
    if poll.Ok? && poll.value.Some? {
      FelicaFoundExactly(air, 0, s.systemCode, poll.value.value);
    }
    if Answered(air, s.systemCode) {
      var target :| FelicaShown(air(0, 0x4A, FelicaPollBytes(s.systemCode)), target);
      FelicaFoundExactly(air, 0, s.systemCode, target);
    }
  }

  /** Between two scans, whatever else is called, the system code does not move. */
  lemma {:induction false} CodeKeptBetweenScans(s: State, ops: seq<Op>)
    requires WellFormed(s) && forall k :: 0 <= k < |ops| ==> !ops[k].Scan?
    ensures After(s, ops).systemCode == s.systemCode
  {
    if ops != [] {
      CodeKeptBetweenScans(s, ops[..|ops| - 1]);
    }
  }

  lemma {:induction false} AfterConcat(s: State, a: seq<Op>, b: seq<Op>)
    requires WellFormed(s)
    ensures After(s, a + b) == After(After(s, a), b)
    decreases |b|
  {
    if b == [] {
      assert a + b == a;
    } else {
      assert (a + b)[..|a + b| - 1] == a + b[..|b| - 1];
      AfterConcat(s, a, b[..|b| - 1]);
    }
  }

  /** A scan of a card in the field: either it is found, or the other code is tried next. */
  lemma ScanOutcome(s: State, air: Air, answers: set<uint16>)
    requires WellFormed(s) && s.radioEnabled && Presents(air, answers)
    ensures var (s', r) := Observe(s, air);
            if s.systemCode in answers then r.Ok? && r.value.cardType.Felica?
            else s'.systemCode == OtherCode(s.systemCode)
  {
    hide Observe, Answered, NoTarget;
    FindsExactly(s, air);
    CodeMovesExactly(s, Scan(air));
  }

  /** The system code a second scan polls with, when only other calls lie between the two. */
  lemma NextScanCode(s: State, before: seq<Op>, first: Air, between: seq<Op>)
    requires WellFormed(s)
    requires forall k :: 0 <= k < |between| ==> !between[k].Scan?
    ensures After(s, before + [Scan(first)] + between).systemCode == Observe(After(s, before), first).0.systemCode
  {
    var upto := before + [Scan(first)];
    assert upto[..|upto| - 1] == before;
    AfterConcat(s, upto, between);
    CodeKeptBetweenScans(After(s, upto), between);
  }

  /**
   The search bound. In any run of calls, take two scans with no scan between them, the radio on for
   both: a card in the field that answers either system code is found by one of the two.
   */
  lemma FoundWithinTwoScans(s: State, before: seq<Op>, first: Air, between: seq<Op>, second: Air, answers: set<uint16>)
    requires WellFormed(s)
    requires forall k :: 0 <= k < |between| ==> !between[k].Scan?
    requires 0x0003 in answers || 0xFFFF in answers
    requires Presents(first, answers) && Presents(second, answers)
    requires After(s, before).radioEnabled && After(s, before + [Scan(first)] + between).radioEnabled
    ensures var one := Observe(After(s, before), first).1;
            var two := Observe(After(s, before + [Scan(first)] + between), second).1;
            (one.Ok? && one.value.cardType.Felica?) || (two.Ok? && two.value.cardType.Felica?)
  {
    ScanOutcome(After(s, before), first, answers);
    NextScanCode(s, before, first, between);
    ScanOutcome(After(s, before + [Scan(first)] + between), second, answers);
  }

  /** While the card keeps answering the current code, the code stays fixed over the whole run. */
  lemma {:induction false} CodeStaysWhileAnswered(s: State, ops: seq<Op>)
    requires WellFormed(s)
    requires forall k :: 0 <= k < |ops| && ops[k].Scan? ==> Answered(ops[k].air, s.systemCode)
    ensures After(s, ops).systemCode == s.systemCode
  {
    hide Apply, Answered;
    if ops != [] {
      var n := |ops| - 1;
      CodeStaysWhileAnswered(s, ops[..n]);
      AnsweredStays(After(s, ops[..n]), ops[n]);
    }
  }

  lemma AnsweredStays(s: State, op: Op)
    requires WellFormed(s) && (op.Scan? ==> Answered(op.air, s.systemCode))
    ensures Apply(s, op).systemCode == s.systemCode
  {
    hide PollFelica, PollTypeA, ReadBlocks, FelicaShown;
    if op.Scan? && s.radioEnabled {
      FindsExactly(s, op.air);
    }
  }

  // ------------------------------------------------- a scan, byte by byte

  /** The digits of an access code: two to a byte, the high nibble first. */
  function Digit(luid: seq<uint8>, k: nat): nat
    requires |luid| == 10 && k < 20
  {
    if k % 2 == 0 then luid[k / 2] / 0x10 else luid[k / 2] % 0x10
  }

  /** A valid code is twenty decimal digits, one of them not 0, the first not 3. */
  lemma ValidLuidDigits(luid: seq<uint8>)
    requires |luid| == 10
    ensures ValidLuid(luid)
       <==> && (forall k | 0 <= k < 20 :: Digit(luid, k) <= 9)
            && (exists k | 0 <= k < 20 :: Digit(luid, k) != 0)
            && Digit(luid, 0) != 3
  {
    forall i | 0 <= i < 10
      ensures Digit(luid, 2 * i) == luid[i] / 0x10 && Digit(luid, 2 * i + 1) == luid[i] % 0x10
    {
    }
    if luid != Zeros(10) {
      var i :| 0 <= i < 10 && luid[i] != 0;
      assert Digit(luid, 2 * i) != 0 || Digit(luid, 2 * i + 1) != 0;
    }
    if k :| 0 <= k < 20 && Digit(luid, k) != 0 {
      assert luid[k / 2] != Zeros(10)[k / 2];
    }
    if forall k | 0 <= k < 20 :: Digit(luid, k) <= 9 {
      assert forall i | 0 <= i < 10 :: Digit(luid, 2 * i) <= 9 && Digit(luid, 2 * i + 1) <= 9;
    }
  }

  /**
   The tag takes the key and then returns blocks 1 and 2: three exchanges from `slot` on, an authentication for
   `block` and two reads.
   */
  ghost predicate Opens(air: Air, slot: nat, target: TypeATarget, command: uint8, block: uint8, key: seq<uint8>,
                        first: seq<uint8>, second: seq<uint8>)
  {
    && KeyAccepted(air(slot, 0x40, [target.target, command, block] + key + target.uid))
    && BlockShown(air(slot + 1, 0x40, [target.target, 0x30, 1]), first)
    && BlockShown(air(slot + 2, 0x40, [target.target, 0x30, 2]), second)
  }

  /** Both blocks are read, block 1 in front of block 2, exactly if the tag opens to the key. */
  lemma BlocksReadExactly(air: Air, slot: nat, target: TypeATarget, command: uint8, block: uint8, key: seq<uint8>,
                          first: seq<uint8>, second: seq<uint8>)
    requires |target.uid| == 4 && |key| == 6
    ensures var r := ReadBlocks(air, slot, target, command, block, key, Zeros(32));
            (r.0 && |first| == 16 && r.1 == first + second)
            <==> Opens(air, slot, target, command, block, key, first, second)
  {
    hide MifareReadBlock, Authenticates, KeyAccepted;
    AuthenticatesExactly(air, slot, target.target, command, block, key, target.uid);
    BlockReadExactly(air, slot + 1, target.target, 1, first);
    BlockReadExactly(air, slot + 2, target.target, 2, second);
    var r := ReadBlocks(air, slot, target, command, block, key, Zeros(32));
    if r.0 {
      var one := MifareReadBlock(air, slot + 1, target.target, 1).value;
      var two := MifareReadBlock(air, slot + 2, target.target, 2).value;
      assert (one + two)[..16] == one && (one + two)[16..] == two;
      if |first| == 16 && r.1 == first + second {
        assert (first + second)[..16] == first && (first + second)[16..] == second;
      }
    }
  }
}
