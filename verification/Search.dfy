/**
 The FeliCa system-code search as the running firmware drives it. The reader is moved by SEGA requests and
 by periodic scans alike; here both become one list of reader calls, over which the search is bounded.
 */
module Search {
  import opened Wrappers
  import opened Bytes
  import Pn532
  import CardReader
  import SegaFraming
  import Sega
  import App

  type Op = CardReader.Op
  type Air = Pn532.Air

  // ---------------------------------------------- what moves the reader, in order

  /** The call of the reader a command of the NFC address makes, if any. */
  function CommandOps(command: uint8, payload: seq<uint8>, air: Air): (ops: seq<Op>)
    ensures |ops| <= 1
  {
    if command == Sega.RADIO_ON || command == Sega.RADIO_OFF then [CardReader.Radio(air, command == Sega.RADIO_ON)]
    else if command == Sega.POLL then [CardReader.Scan(air)]
    else if (command == Sega.SET_KEY_AIME || command == Sega.SET_KEY_BANA) && |payload| == 6 then
      [CardReader.SetKey(Sega.KeyType(command), payload)]
    else if command == Sega.AUTHENTICATE_AIME || command == Sega.AUTHENTICATE_BANA then
      [CardReader.UseKey(Sega.KeyType(command))]
    else []
  }

  lemma AfterOne(s: CardReader.State, op: Op)
    requires CardReader.WellFormed(s)
    ensures CardReader.After(s, [op]) == CardReader.Apply(s, op)
  {
    assert [op][..0] == [];
  }

  /** No command moves the reader but by at most that one call. */
  lemma CommandMoves(s: CardReader.State, command: uint8, payload: seq<uint8>, air: Air)
    requires CardReader.WellFormed(s)
    ensures Sega.HandleNfc(s, command, payload, air).0 == CardReader.After(s, CommandOps(command, payload, air))
  {
    hide CardReader.Observe, CardReader.SetRadioEnabled, CardReader.After;
    var ops := CommandOps(command, payload, air);
    AfterNothing(s);
    if ops != [] {
      AfterOne(s, ops[0]);
    }
  }

  lemma AfterNothing(s: CardReader.State)
    requires CardReader.WellFormed(s)
    ensures CardReader.After(s, []) == s
  {
  }

  function FrameOps(frame: seq<uint8>, air: Air): seq<Op> {
    if Sega.IsRequest(frame) && frame[1] == Sega.ADDRESS_NFC then CommandOps(frame[3], frame[5..], air) else []
  }

  lemma FrameMoves(s: CardReader.State, frame: seq<uint8>, air: Air)
    requires CardReader.WellFormed(s)
    ensures Sega.Dispatch(s, frame, air).0 == CardReader.After(s, FrameOps(frame, air))
  {
    hide CommandOps, Sega.HandleNfc, Sega.HandleLed, CardReader.After;
    AfterNothing(s);
    if Sega.IsRequest(frame) && frame[1] == Sega.ADDRESS_NFC {
      CommandMoves(s, frame[3], frame[5..], air);
    }
  }

  /** The calls a list of delivered frames makes. */
  function StreamOps(frames: seq<seq<uint8>>, airs: nat -> Air): seq<Op>
    decreases |frames|
  {
    if frames == [] then []
    else StreamOps(frames[..|frames| - 1], airs) + FrameOps(frames[|frames| - 1], airs(|frames| - 1))
  }

  lemma {:induction false} StreamMoves(s: CardReader.State, frames: seq<seq<uint8>>, airs: nat -> Air)
    requires CardReader.WellFormed(s)
    ensures Sega.Serve(s, frames, airs).0 == CardReader.After(s, StreamOps(frames, airs))
    decreases |frames|
  {
    hide FrameOps, Sega.Dispatch, CardReader.After;
    AfterNothing(s);
    if frames != [] {
      var n := |frames| - 1;
      StreamMoves(s, frames[..n], airs);
      FrameMoves(Sega.Serve(s, frames[..n], airs).0, frames[n], airs(n));
      CardReader.AfterConcat(s, StreamOps(frames[..n], airs), FrameOps(frames[n], airs(n)));
    }
  }

  /** The calls the message of a pass makes. */
  function MessageOps(s: App.State, pass: App.Pass): seq<Op> {
    match pass.message
    case Some(Cdc(data)) => StreamOps(SegaFraming.Run(s.device.parser, data).frames, pass.requestAirs)
    case _ => []
  }

  /** The periodic scan of a pass is due. */
  predicate Due(s: App.State, pass: App.Pass) {
    s.nextScan <= pass.now
  }

  function PassOps(s: App.State, pass: App.Pass): seq<Op> {
    MessageOps(s, pass) + if Due(s, pass) then [CardReader.Scan(pass.scanAir)] else []
  }

  lemma MessageMoves(s: App.State, pass: App.Pass)
    requires App.WellFormed(s)
    ensures var s' := App.HandleMessage(s, pass);
            s'.nextScan == s.nextScan && s'.device.reader == CardReader.After(s.device.reader, MessageOps(s, pass))
  {
    hide SegaFraming.Run, Sega.Serve, StreamOps, CardReader.After;
    AfterNothing(s.device.reader);
    match pass.message {
      case Some(Cdc(data)) =>
        StreamMoves(s.device.reader, SegaFraming.Run(s.device.parser, data).frames, pass.requestAirs);
      case _ =>
    }
  }

  lemma ScanMoves(s: App.State, pass: App.Pass)
    requires App.WellFormed(s)
    ensures App.Scan(s, pass).device.reader
            == if Due(s, pass) then CardReader.Observe(s.device.reader, pass.scanAir).0 else s.device.reader
  {
    hide CardReader.Observe;
  }

  lemma PassMoves(s: App.State, pass: App.Pass)
    requires App.WellFormed(s)
    ensures App.Tick(s, pass).device.reader == CardReader.After(s.device.reader, PassOps(s, pass))
  {
    hide App.HandleMessage, App.Scan, MessageOps, CardReader.After, CardReader.Observe;
    var ops := MessageOps(s, pass);
    var s' := App.HandleMessage(s, pass);
    MessageMoves(s, pass);
    ScanMoves(s', pass);
    if Due(s, pass) {
      CardReader.AfterConcat(s.device.reader, ops, [CardReader.Scan(pass.scanAir)]);
      AfterOne(s'.device.reader, CardReader.Scan(pass.scanAir));
    } else {
      assert ops + [] == ops;
    }
  }

  /** Every call of the reader over a run of the loop. */
  function Ops(s: App.State, passes: seq<App.Pass>): seq<Op>
    requires App.WellFormed(s)
  {
    if passes == [] then []
    else
      var n := |passes| - 1;
      Ops(s, passes[..n]) + PassOps(App.After(s, passes[..n]), passes[n])
  }

  /** The loop and its SEGA dispatcher move the reader by these calls and by nothing else. */
  lemma {:induction false} LoopMoves(s: App.State, passes: seq<App.Pass>)
    requires App.WellFormed(s)
    ensures App.After(s, passes).device.reader == CardReader.After(s.device.reader, Ops(s, passes))
  {
    hide App.Tick, PassOps, CardReader.After;
    AfterNothing(s.device.reader);
    if passes != [] {
      var n := |passes| - 1;
      LoopMoves(s, passes[..n]);
      PassMoves(App.After(s, passes[..n]), passes[n]);
      CardReader.AfterConcat(s.device.reader, Ops(s, passes[..n]), PassOps(App.After(s, passes[..n]), passes[n]));
    }
  }

  // ------------------------------------------------------------------ the search

  /** Every scan among the calls sees an exchange of this kind. */
  ghost predicate ScansSee(ops: seq<Op>, kind: Air -> bool) {
    forall k :: 0 <= k < |ops| && ops[k].Scan? ==> kind(ops[k].air)
  }

  /** Every exchange of the pass is of this kind. */
  ghost predicate PassSees(pass: App.Pass, kind: Air -> bool) {
    kind(pass.scanAir) && forall k: nat :: kind(pass.requestAirs(k))
  }

  lemma {:induction false} StreamSees(frames: seq<seq<uint8>>, airs: nat -> Air, kind: Air -> bool)
    requires forall k: nat :: kind(airs(k))
    ensures ScansSee(StreamOps(frames, airs), kind)
    decreases |frames|
  {
    if frames != [] {
      StreamSees(frames[..|frames| - 1], airs, kind);
    }
  }

  lemma {:induction false} LoopSees(s: App.State, passes: seq<App.Pass>, kind: Air -> bool)
    requires App.WellFormed(s) && forall k :: 0 <= k < |passes| ==> PassSees(passes[k], kind)
    ensures ScansSee(Ops(s, passes), kind)
  {
    hide App.After, StreamOps;
    if passes != [] {
      var n := |passes| - 1;
      var before := App.After(s, passes[..n]);
      LoopSees(s, passes[..n], kind);
      match passes[n].message {
        case Some(Cdc(data)) =>
          StreamSees(SegaFraming.Run(before.device.parser, data).frames, passes[n].requestAirs, kind);
        case _ =>
      }
    }
  }

  ghost predicate RadioOn(s: CardReader.State, ops: seq<Op>)
    requires CardReader.WellFormed(s)
  {
    forall k :: 0 <= k <= |ops| ==> CardReader.After(s, ops[..k]).radioEnabled
  }

  /** The `k`-th call is a scan, and it finds a FeliCa card. */
  ghost predicate Finds(s: CardReader.State, ops: seq<Op>, k: nat)
    requires CardReader.WellFormed(s)
  {
    && k < |ops| && ops[k].Scan?
    && var r := CardReader.Observe(CardReader.After(s, ops[..k]), ops[k].air).1;
       r.Ok? && r.value.cardType.Felica?
  }

  /** The first scan behind `i`. */
  lemma NextScan(ops: seq<Op>, i: nat, last: nat) returns (j: nat)
    requires i < last < |ops| && ops[last].Scan?
    ensures i < j <= last && ops[j].Scan? && forall k :: i < k < j ==> !ops[k].Scan?
  {
    j := i + 1;
    while !ops[j].Scan?
      invariant i < j <= last && forall k :: i < k < j ==> !ops[k].Scan?
      decreases last - j
    {
      j := j + 1;
    }
  }

  /** Of two successive scans of a card that answers either code, one finds it. */
  lemma OneOfTwoFinds(s: CardReader.State, ops: seq<Op>, i: nat, j: nat, answers: set<uint16>)
    requires CardReader.WellFormed(s) && i < j < |ops| && ops[i].Scan? && ops[j].Scan?
    requires forall k :: i < k < j ==> !ops[k].Scan?
    requires 0x0003 in answers || 0xFFFF in answers
    requires ScansSee(ops, air => CardReader.Presents(air, answers)) && RadioOn(s, ops)
    ensures Finds(s, ops, i) || Finds(s, ops, j)
  {
    hide CardReader.Observe, CardReader.After, CardReader.Presents;
    var before, between := ops[..i], ops[i + 1..j];
    assert before + [ops[i]] + between == ops[..j];
    assert CardReader.After(s, ops[..i]).radioEnabled && CardReader.After(s, ops[..j]).radioEnabled;
    CardReader.FoundWithinTwoScans(s, before, ops[i].air, between, ops[j].air, answers);
  }

  /**
   The search bound of the running firmware. From any state, take any passes the first and last of which
   have their periodic scan due, with any SEGA traffic and other scans in between, the radio on: a card that
   is in the field and answers either system code is found by the first of these scans or the one behind it.
   */
  lemma FoundWithinTwoPasses(s: App.State, passes: seq<App.Pass>, answers: set<uint16>) returns (k: nat)
    requires App.WellFormed(s) && |passes| >= 2
    requires Due(s, passes[0]) && Due(App.After(s, passes[..|passes| - 1]), passes[|passes| - 1])
    requires 0x0003 in answers || 0xFFFF in answers
    requires forall n :: 0 <= n < |passes| ==> PassSees(passes[n], air => CardReader.Presents(air, answers))
    requires RadioOn(s.device.reader, Ops(s, passes))
    ensures Finds(s.device.reader, Ops(s, passes), k)
    ensures var first := |MessageOps(s, passes[0])|;
            first <= k && forall m :: first < m < k ==> !Ops(s, passes)[m].Scan?
  {
    hide App.After, CardReader.Presents, Finds, RadioOn;
    var ops, n := Ops(s, passes), |passes| - 1;
    LoopSees(s, passes, air => CardReader.Presents(air, answers));
    var i := |MessageOps(s, passes[0])|;
    FirstPassOps(s, passes);
    var j := NextScan(ops, i, |ops| - 1);
    OneOfTwoFinds(s.device.reader, ops, i, j, answers);
    k := if Finds(s.device.reader, ops, i) then i else j;
  }

  /** The first pass's calls come first, the last pass's scan comes last. */
  lemma {:induction false} FirstPassOps(s: App.State, passes: seq<App.Pass>)
    requires App.WellFormed(s) && |passes| >= 1 && Due(s, passes[0])
    ensures PassOps(s, passes[0]) <= Ops(s, passes)
    ensures var n := |passes| - 1;
            n > 0 && Due(App.After(s, passes[..n]), passes[n]) ==>
              |PassOps(s, passes[0])| < |Ops(s, passes)| && Ops(s, passes)[|Ops(s, passes)| - 1].Scan?
  {
    hide App.Tick, MessageOps;
    var n := |passes| - 1;
    if n == 0 {
      assert passes[..0] == [];
    } else {
      FirstPassOps(s, passes[..n]);
    }
  }

  /** While the card keeps answering the current code, no pass of the loop moves it. */
  lemma CodeStaysInLoop(s: App.State, passes: seq<App.Pass>)
    requires App.WellFormed(s)
    requires var code := s.device.reader.systemCode;
             forall n :: 0 <= n < |passes| ==> PassSees(passes[n], air => CardReader.Answered(air, code))
    ensures App.After(s, passes).device.reader.systemCode == s.device.reader.systemCode
  {
    hide App.After, CardReader.After, CardReader.Answered;
    var code := s.device.reader.systemCode;
    LoopSees(s, passes, air => CardReader.Answered(air, code));
    LoopMoves(s, passes);
    CardReader.CodeStaysWhileAnswered(s.device.reader, Ops(s, passes));
  }
}
