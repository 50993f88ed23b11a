/**
 What one scan observes, read off the bytes on the bus: each outcome of `reader_read_card` is tied to what the
 chip frames in answer to which request, with no reference to how the reader computes it.
 */
module ScanLaws {
  import opened Wrappers
  import opened Bytes
  import opened Pn532
  import opened CardReader

  /** What the FeliCa poll of a scan is answered with. */
  function FelicaExchange(s: State, air: Air): Exchange {
    air(0, 0x4A, FelicaPollBytes(s.systemCode))
  }

  function TypeAExchange(air: Air): Exchange {
    air(1, 0x4A, [0x01, 0x00])
  }

  /** With the radio off the air is not asked, and no card is a success. */
  lemma RadioOffSeesNothing(s: State, air: Air)
    requires WellFormed(s) && !s.radioEnabled
    ensures Observe(s, air) == (s, Ok(Card(NoCard, Zeros(4), Zeros(10), Zeros(32), Zeros(8), Zeros(8), false)))
  {
  }

  /** A FeliCa target is observed with its two identifiers, and becomes the active one. */
  lemma FelicaSeen(s: State, air: Air, target: FelicaTarget)
    requires WellFormed(s) && s.radioEnabled && FelicaShown(FelicaExchange(s, air), target)
    ensures Observe(s, air)
            == (s.(activeFelica := target),
                Ok(Card(Felica, Zeros(4), Zeros(10), Zeros(32), target.idm, target.pmm, false)))
  {
    hide PollFelica, PollTypeA, MifareCard, FelicaShown;
    FelicaFoundExactly(air, 0, s.systemCode, target);
  }

  /** The state in which the scan goes on to Type A: the other code is next only after a miss. */
  ghost function Missed(s: State, air: Air): State
    requires WellFormed(s)
  {
    if NoTarget(FelicaExchange(s, air)) then s.(systemCode := if s.systemCode == 0x0003 then 0xFFFF else 0x0003) else s
  }

  /** The FeliCa poll shows no target: it misses, or fails in some way. */
  ghost predicate NoFelica(s: State, air: Air) {
    forall target :: !FelicaShown(FelicaExchange(s, air), target)
  }

  lemma NoFelicaPoll(s: State, air: Air)
    requires WellFormed(s) && NoFelica(s, air)
    ensures var poll := PollFelica(air, 0, s.systemCode);
            && !(poll.Ok? && poll.value.Some?)
            && (poll.Ok? <==> NoTarget(FelicaExchange(s, air)))
  {
    hide PollFelica, FelicaShown, NoTarget;
    var poll := PollFelica(air, 0, s.systemCode);
    FelicaMissExactly(air, 0, s.systemCode);
    forall target
      ensures poll != Ok(Some(target))
    {
      FelicaFoundExactly(air, 0, s.systemCode, target);
      assert !FelicaShown(FelicaExchange(s, air), target);
    }
  }

  /** An empty field is a successful observation of no card, whatever was there before. */
  lemma EmptyFieldSeen(s: State, air: Air)
    requires WellFormed(s) && s.radioEnabled && NoFelica(s, air) && NoTarget(TypeAExchange(air))
    ensures Observe(s, air)
            == (Missed(s, air), Ok(Card(NoCard, Zeros(4), Zeros(10), Zeros(32), Zeros(8), Zeros(8), false)))
  {
    hide PollFelica, PollTypeA, MifareCard, NoTarget;
    NoFelicaPoll(s, air);
    TypeAMissExactly(air, 1);
  }

  /** A scan fails exactly if there is no FeliCa target and the Type A poll shows neither a target nor a miss. */
  lemma FailsExactly(s: State, air: Air)
    requires WellFormed(s) && s.radioEnabled
    ensures Observe(s, air).1.Err?
       <==> && NoFelica(s, air) && !NoTarget(TypeAExchange(air))
            && forall target :: !TypeAShown(TypeAExchange(air), target)
    ensures Observe(s, air).1.Err? ==> Observe(s, air).0 == Missed(s, air)
  {
    hide PollFelica, PollTypeA, MifareCard, NoTarget, FelicaShown, TypeAShown;
    TypeAMissExactly(air, 1);
    var poll := PollTypeA(air, 1);
    if poll.Ok? && poll.value.Some? {
      TypeAFoundExactly(air, 1, poll.value.value);
    }
    forall target | TypeAShown(TypeAExchange(air), target)
      ensures poll == Ok(Some(target))
    {
      TypeAFoundExactly(air, 1, target);
    }
    forall target | FelicaShown(FelicaExchange(s, air), target)
      ensures Observe(s, air).1.Ok?
    {
      FelicaSeen(s, air, target);
    }
    if NoFelica(s, air) {
      NoFelicaPoll(s, air);
    }
  }

  /** A Type A target becomes the active one; one whose identifier has not four bytes is observed as no card. */
  lemma OtherTypeASeen(s: State, air: Air, target: TypeATarget)
    requires WellFormed(s) && s.radioEnabled && NoFelica(s, air) && TypeAShown(TypeAExchange(air), target)
    requires |target.uid| != 4
    ensures Observe(s, air)
            == (Missed(s, air).(activeMifare := target),
                Ok(Card(NoCard, Zeros(4), Zeros(10), Zeros(32), Zeros(8), Zeros(8), false)))
  {
    hide PollFelica, PollTypeA, MifareCard, NoTarget, TypeAShown;
    NoFelicaPoll(s, air);
    TypeAFoundExactly(air, 1, target);
  }

  /** A MIFARE tag is the active target, and the observation is the one made of it with the reader's keys. */
  lemma TagSeen(s: State, air: Air, target: TypeATarget)
    requires WellFormed(s) && s.radioEnabled && NoFelica(s, air) && TypeAShown(TypeAExchange(air), target)
    requires |target.uid| == 4
    ensures Observe(s, air) == (Missed(s, air).(activeMifare := target), Ok(MifareCard(s.keys, air, target)))
  {
    hide PollFelica, PollTypeA, MifareCard, NoTarget, TypeAShown;
    NoFelicaPoll(s, air);
    TypeAFoundExactly(air, 1, target);
  }

  /** The access code of a tag: bytes 6 to 15 of block 2 if they are a valid code, else none. */
  function CodeIn(second: seq<uint8>): seq<uint8>
    requires |second| == 16
  {
    if ValidLuid(second[6..16]) then second[6..16] else Zeros(10)
  }

  /**
   A tag that opens to the Aime key, by command 0x61 for block 2, is observed with its identifier, blocks 1 and 2
   and the code in block 2.
   */
  lemma AimeTagSeen(s: State, air: Air, target: TypeATarget, first: seq<uint8>, second: seq<uint8>)
    requires WellFormed(s) && s.radioEnabled && NoFelica(s, air) && TypeAShown(TypeAExchange(air), target)
    requires |target.uid| == 4 && Opens(air, 2, target, 0x61, 2, s.keys[0], first, second)
    ensures |first| == |second| == 16
    ensures Observe(s, air).1 == Ok(Card(Mifare, target.uid, CodeIn(second), first + second, Zeros(8), Zeros(8), true))
  {
    hide NoFelica, Opens, Observe, MifareCard, TypeAShown;
    OpensToBlocks(air, 2, target, 0x61, 2, s.keys[0], first, second);
    TagSeen(s, air, target);
    AimeCard(s.keys, air, target, first, second);
  }

  lemma OpensToBlocks(air: Air, slot: nat, target: TypeATarget, command: uint8, block: uint8, key: seq<uint8>,
                      first: seq<uint8>, second: seq<uint8>)
    requires Opens(air, slot, target, command, block, key, first, second)
    ensures |first| == |second| == 16
  {
    hide KeyAccepted;
  }

  lemma AimeCard(keys: seq<seq<uint8>>, air: Air, target: TypeATarget, first: seq<uint8>, second: seq<uint8>)
    requires |keys| == 2 && |keys[0]| == 6 && |target.uid| == 4 && |first| == |second| == 16
    requires Opens(air, 2, target, 0x61, 2, keys[0], first, second)
    ensures MifareCard(keys, air, target)
            == Card(Mifare, target.uid, CodeIn(second), first + second, Zeros(8), Zeros(8), true)
  {
    hide ReadBlocks, Opens, ValidLuid;
    BlocksReadExactly(air, 2, target, 0x61, 2, keys[0], first, second);
    assert (first + second)[22..32] == second[6..16];
  }

  /** The tag opens to this key in some way. */
  ghost predicate OpensSomehow(air: Air, slot: nat, target: TypeATarget, command: uint8, block: uint8,
                               key: seq<uint8>)
  {
    exists first, second :: Opens(air, slot, target, command, block, key, first, second)
  }

  lemma ClosedToKey(air: Air, slot: nat, target: TypeATarget, command: uint8, block: uint8, key: seq<uint8>)
    requires |target.uid| == 4 && |key| == 6 && !OpensSomehow(air, slot, target, command, block, key)
    ensures !ReadBlocks(air, slot, target, command, block, key, Zeros(32)).0
  {
    hide ReadBlocks, Opens;
    var r := ReadBlocks(air, slot, target, command, block, key, Zeros(32));
    assert r.1 == r.1[..16] + r.1[16..];
    BlocksReadExactly(air, slot, target, command, block, key, r.1[..16], r.1[16..]);
  }

  /** A tag that opens to the Banapass key alone, by command 0x60 for block 1, has blocks and no code. */
  lemma BanapassTagSeen(s: State, air: Air, target: TypeATarget, first: seq<uint8>, second: seq<uint8>)
    requires WellFormed(s) && s.radioEnabled && NoFelica(s, air) && TypeAShown(TypeAExchange(air), target)
    requires |target.uid| == 4 && !OpensSomehow(air, 2, target, 0x61, 2, s.keys[0])
    requires Opens(air, 5, target, 0x60, 1, s.keys[1], first, second)
    ensures Observe(s, air).1 == Ok(Card(Mifare, target.uid, Zeros(10), first + second, Zeros(8), Zeros(8), true))
  {
    hide NoFelica, ReadBlocks, Opens, OpensSomehow, Observe, ValidLuid, TypeAShown;
    TagSeen(s, air, target);
    ClosedToKey(air, 2, target, 0x61, 2, s.keys[0]);
    BlocksReadExactly(air, 5, target, 0x60, 1, s.keys[1], first, second);
  }

  /** What the buffer keeps of an attempt that fails: block 1 if it was read, else nothing. */
  lemma LeftOver(air: Air, slot: nat, target: TypeATarget, command: uint8, block: uint8, key: seq<uint8>,
                 first: seq<uint8>)
    requires |target.uid| == 4 && |key| == 6 && !OpensSomehow(air, slot, target, command, block, key)
    ensures var left := ReadBlocks(air, slot, target, command, block, key, Zeros(32)).1;
            var accepted := KeyAccepted(air(slot, 0x40, [target.target, command, block] + key + target.uid));
            && (accepted && BlockShown(air(slot + 1, 0x40, [target.target, 0x30, 1]), first) ==>
                  left == first + Zeros(16))
            && (left != Zeros(32) ==> accepted && BlockShown(air(slot + 1, 0x40, [target.target, 0x30, 1]), left[..16]))
  {
    hide MifareReadBlock, Authenticates, KeyAccepted, BlockShown, Opens, OpensSomehow;
    ClosedToKey(air, slot, target, command, block, key);
    AuthenticatesExactly(air, slot, target.target, command, block, key, target.uid);
    BlockReadExactly(air, slot + 1, target.target, 1, first);
    assert Zeros(32)[16..] == Zeros(16);
    var one := MifareReadBlock(air, slot + 1, target.target, 1);
    if one.Some? {
      BlockReadExactly(air, slot + 1, target.target, 1, one.value);
      assert (one.value + Zeros(16))[..16] == one.value;
    }
  }

  /**
   A tag closed to both keys is observed with its identifier and no code, and not with blocks, though block 1
   stays in the buffer if the Banapass attempt got as far.
   */
  lemma ClosedTagSeen(s: State, air: Air, target: TypeATarget, first: seq<uint8>)
    requires WellFormed(s) && s.radioEnabled && NoFelica(s, air) && TypeAShown(TypeAExchange(air), target)
    requires |target.uid| == 4 && !OpensSomehow(air, 2, target, 0x61, 2, s.keys[0])
    requires !OpensSomehow(air, 5, target, 0x60, 1, s.keys[1])
    ensures var r := Observe(s, air).1;
            && r.Ok? && r.value.cardType.Mifare? && r.value.mifareUid == target.uid
            && !r.value.hasBlocks && r.value.luid == Zeros(10)
    ensures var left := Observe(s, air).1.value.blocks;
            var accepted := KeyAccepted(air(5, 0x40, [target.target, 0x60, 1] + s.keys[1] + target.uid));
            && (accepted && BlockShown(air(6, 0x40, [target.target, 0x30, 1]), first) ==> left == first + Zeros(16))
            && (left != Zeros(32) ==> accepted && BlockShown(air(6, 0x40, [target.target, 0x30, 1]), left[..16]))
  {
    hide NoFelica, ReadBlocks, OpensSomehow, Observe, ValidLuid, TypeAShown, KeyAccepted, BlockShown;
    TagSeen(s, air, target);
    ClosedToKey(air, 2, target, 0x61, 2, s.keys[0]);
    ClosedToKey(air, 5, target, 0x60, 1, s.keys[1]);
    LeftOver(air, 5, target, 0x60, 1, s.keys[1], first);
  }
}
