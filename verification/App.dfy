/**
 The firmware's main loop: host messages in, periodic scans, and one published signal per change of the
 observed card. `Firmware` is the loop with its state; the functions on `State` specify it over whole runs.
 */
module App {
  import opened Wrappers
  import opened Bytes
  import opened Protocol
  import Pn532
  import CardReader
  import Prhp
  import Sega
  import SegaFraming
  import Session

  type Air = Pn532.Air

  const SCAN_INTERVAL: nat := 200000

  datatype Message = Hid(report: seq<uint8>) | Cdc(data: seq<uint8>)

  /**
   One pass of the loop as the outside decides it: the message waiting, the clock, what comes over the
   air, and whether the PRHP reports sent in this pass reach the host.
   */
  datatype Pass = Pass(message: Option<Message>, requestAirs: nat -> Air, now: int, scanAir: Air,
                       replyArrives: bool, signalArrives: bool)

  /**
   The loop's state, with everything it did so far: `scans` the scan results, `published` the observations
   published, `delivered` the reports that reached the host, `shown` the last observation among them.
   */
  datatype State = State(device: Sega.Snapshot, current: CardReader.Card, nextScan: int,
                         scans: seq<Result<CardReader.Card, Pn532.Error>>, published: seq<CardReader.Card>,
                         delivered: seq<Report>, shown: CardReader.Card)

  const START := State(Sega.Snapshot(SegaFraming.RESET, CardReader.INITIAL, [], []), CardReader.EMPTY, 0,
                       [], [], [], CardReader.EMPTY)

  predicate WellFormed(s: State) {
    CardReader.WellFormed(s.device.reader)
  }

  /** A message is handed to its protocol. */
  function HandleMessage(s: State, pass: Pass): (s': State)
    requires WellFormed(s)
    ensures WellFormed(s')
  {
    match pass.message
    case None => s
    case Some(Cdc(data)) => s.(device := Sega.ReceiveAll(s.device, data, pass.requestAirs))
    case Some(Hid(report)) =>
      if |report| != REPORT_SIZE then s
      else
        var reply := Prhp.Respond(report);
        if reply.Some? && pass.replyArrives then s.(delivered := s.delivered + [reply.value]) else s
  }

  /** A successful scan that differs from the current observation replaces and publishes it. */
  function TakeObservation(s: State, card: CardReader.Card, arrives: bool): State
    requires CardReader.Observable(card)
  {
    if card == s.current then s
    else
      var s' := s.(current := card, published := s.published + [card]);
      if arrives then s'.(delivered := s.delivered + [Prhp.CardSignal(card)], shown := card) else s'
  }

  function Scan(s: State, pass: Pass): (s': State)
    requires WellFormed(s)
    ensures WellFormed(s')
  {
    if pass.now < s.nextScan then
      s
    else
      CardReader.ObservationsWellFormed(s.device.reader, pass.scanAir);
      var (reader, r) := CardReader.Observe(s.device.reader, pass.scanAir);
      var s' := s.(nextScan := pass.now + SCAN_INTERVAL, device := s.device.(reader := reader), scans := s.scans + [r]);
      if r.Err? then s' else TakeObservation(s', r.value, pass.signalArrives)
  }

  function Tick(s: State, pass: Pass): (s': State)
    requires WellFormed(s)
    ensures WellFormed(s')
  {
    Scan(HandleMessage(s, pass), pass)
  }

  function After(s: State, passes: seq<Pass>): (s': State)
    requires WellFormed(s)
    ensures WellFormed(s')
  {
    if passes == [] then s else Tick(After(s, passes[..|passes| - 1]), passes[|passes| - 1])
  }

  // ----------------------------------------------------------------- the loop

  class Firmware {
    const sega: Sega.Device
    var current: CardReader.Card
    var nextScan: int
    var delivered: seq<Report>
    ghost var scans: seq<Result<CardReader.Card, Pn532.Error>>
    ghost var published: seq<CardReader.Card>
    ghost var shown: CardReader.Card

    ghost predicate Valid()
      reads this, sega, sega.reader
    {
      sega.Valid()
    }

    ghost function Now(): State
      requires Valid()
      reads this, sega, sega.bytes, sega.reader
    {
      State(sega.Now(), current, nextScan, scans, published, delivered, shown)
    }

    constructor ()
      ensures Valid() && Now() == START
    {
      var reader := new CardReader.Reader();
      sega := new Sega.Device(reader);
      current, nextScan, delivered := CardReader.EMPTY, 0, [];
      scans, published, shown := [], [], CardReader.EMPTY;
    }

    method HandleOne(pass: Pass)
      requires Valid()
      modifies this`delivered, sega, sega.bytes, sega.reader
      ensures Valid() && Now() == HandleMessage(old(Now()), pass)
    {
      hide Sega.ReceiveAll, Prhp.Respond;
      if pass.message.Some? {
        match pass.message.value {
          case Cdc(data) =>
            sega.Receive(data, pass.requestAirs);
          case Hid(report) =>
            if |report| == REPORT_SIZE {
              var reply := Prhp.Dispatch(report);
              if reply.Some? && pass.replyArrives {
                delivered := delivered + [reply.value];
              }
            }
        }
      }
    }

    method ScanOne(pass: Pass)
      requires Valid()
      modifies this, sega.reader
      ensures Valid() && Now() == Scan(old(Now()), pass)
    {
      hide CardReader.Observe, Prhp.CardSignal;
      if pass.now < nextScan {
        return;
      }
      nextScan := pass.now + SCAN_INTERVAL;
      CardReader.ObservationsWellFormed(sega.reader.Abs(), pass.scanAir);
      var observed := sega.reader.ReadCard(pass.scanAir);
      scans := scans + [observed];
      if observed.Err? || current == observed.value {
        return;
      }
      current := observed.value;
      published := published + [current];
      var signal := Prhp.PublishCardState(current);
      if pass.signalArrives {
        delivered := delivered + [signal];
        shown := current;
      }
    }

    method Loop(passes: seq<Pass>)
      requires Valid()
      modifies this, sega, sega.bytes, sega.reader
      ensures Valid() && Now() == After(old(Now()), passes)
    {
      hide HandleMessage, Scan;
      ghost var was := Now();
      assert passes[..0] == [];
      for i := 0 to |passes|
        invariant Valid() && Now() == After(was, passes[..i])
      {
        HandleOne(passes[i]);
        ScanOne(passes[i]);
        assert passes[..i + 1][..i] == passes[..i];
      }
      assert passes[..|passes|] == passes;
    }
  }

  // ------------------------------------------------------- publishing, over runs

  type Scanned = Result<CardReader.Card, Pn532.Error>

  /** The successful scans, in order. */
  function Successes(scans: seq<Scanned>): seq<CardReader.Card> {
    if scans == [] then []
    else
      var earlier := Successes(scans[..|scans| - 1]);
      if scans[|scans| - 1].Ok? then earlier + [scans[|scans| - 1].value] else earlier
  }

  /** The last element, or what was there before. */
  function LastOr<T>(first: T, xs: seq<T>): T {
    if xs == [] then first else xs[|xs| - 1]
  }

  /** A list without the elements that repeat the one before them, `first` standing before the list. */
  function Changes<T(==)>(first: T, xs: seq<T>): seq<T> {
    if xs == [] then []
    else
      var n := |xs| - 1;
      var earlier := Changes(first, xs[..n]);
      if xs[n] == LastOr(first, xs[..n]) then earlier else earlier + [xs[n]]
  }

  lemma {:induction false} LastChange<T>(first: T, xs: seq<T>)
    ensures LastOr(first, Changes(first, xs)) == LastOr(first, xs)
  {
    if xs != [] {
      LastChange(first, xs[..|xs| - 1]);
    }
  }

  /** No element of the changes repeats the one before it. */
  lemma {:induction false} ChangesDiffer<T>(first: T, xs: seq<T>)
    ensures var ys := [first] + Changes(first, xs);
            forall k :: 0 < k < |ys| ==> ys[k] != ys[k - 1]
  {
    if xs != [] {
      var n := |xs| - 1;
      var earlier := Changes(first, xs[..n]);
      ChangesDiffer(first, xs[..n]);
      LastChange(first, xs[..n]);
      assert ([first] + earlier)[|earlier|] == LastOr(first, earlier);
      assert [first] + (earlier + [xs[n]]) == [first] + earlier + [xs[n]];
    }
  }

  /** What holds of every state of the loop. */
  ghost predicate Inv(s: State) {
    && s.published == Changes(CardReader.EMPTY, Successes(s.scans))
    && s.current == LastOr(CardReader.EMPTY, Successes(s.scans))
    && Session.Cached(NO_CARD, s.delivered) == Prhp.Project(s.shown)
  }

  lemma ResponseKeepsCard(card: Card, reports: seq<Report>, report: Report)
    requires Prhp.Respond(report).Some?
    ensures Session.Cached(card, reports + [Prhp.Respond(report).value]) == Session.Cached(card, reports)
  {
    Prhp.AnsweredExactlyRequests(report);
    assert (reports + [Prhp.Respond(report).value])[..|reports|] == reports;
  }

  lemma SignalSetsCard(card: Card, reports: seq<Report>, seen: CardReader.Card)
    requires CardReader.Observable(seen)
    ensures Session.Cached(card, reports + [Prhp.CardSignal(seen)]) == Prhp.Project(seen)
  {
    Prhp.SignalDecodes(seen);
    assert (reports + [Prhp.CardSignal(seen)])[..|reports|] == reports;
  }

  lemma MessageStep(s: State, pass: Pass)
    requires WellFormed(s) && Inv(s)
    ensures Inv(HandleMessage(s, pass))
  {
    hide Sega.ReceiveAll, Session.Cached, Prhp.Project, Prhp.Respond;
    if pass.message.Some? && pass.message.value.Hid? && |pass.message.value.report| == REPORT_SIZE {
      if Prhp.Respond(pass.message.value.report).Some? {
        ResponseKeepsCard(NO_CARD, s.delivered, pass.message.value.report);
      }
    }
  }

  lemma SuccessesSnoc(scans: seq<Scanned>, r: Scanned)
    ensures Successes(scans + [r]) == if r.Ok? then Successes(scans) + [r.value] else Successes(scans)
  {
    assert (scans + [r])[..|scans|] == scans;
  }

  lemma ChangesSnoc<T>(first: T, xs: seq<T>, x: T)
    ensures Changes(first, xs + [x]) == if x == LastOr(first, xs) then Changes(first, xs) else Changes(first, xs) + [x]
    ensures LastOr(first, xs + [x]) == x
  {
    assert (xs + [x])[..|xs|] == xs;
  }

  /** A failed scan leaves what was published as it was. */
  lemma FailureKeeps(s: State, r: Scanned)
    requires Inv(s) && r.Err?
    ensures Inv(s.(scans := s.scans + [r]))
  {
    hide Successes, Changes, Session.Cached, Prhp.Project;
    SuccessesSnoc(s.scans, r);
  }

  /** Taking an observation is one more successful scan. */
  lemma ObservationKeeps(s: State, card: CardReader.Card, arrives: bool)
    requires Inv(s) && CardReader.Observable(card)
    ensures Inv(TakeObservation(s.(scans := s.scans + [Ok(card)]), card, arrives))
  {
    hide Successes, Changes, LastOr, CardReader.Observable, Session.Cached, Prhp.Project, Prhp.CardSignal;
    SuccessesSnoc(s.scans, Ok(card));
    ChangesSnoc(CardReader.EMPTY, Successes(s.scans), card);
    SignalSetsCard(NO_CARD, s.delivered, card);
  }

  /** The invariant speaks of neither the clock nor the device. */
  lemma ClockIrrelevant(s: State, device: Sega.Snapshot, nextScan: int)
    requires Inv(s)
    ensures Inv(s.(device := device, nextScan := nextScan))
  {
  }

  lemma ScanStep(s: State, pass: Pass)
    requires WellFormed(s) && Inv(s)
    ensures Inv(Scan(s, pass))
  {
    hide Inv, CardReader.Observe, CardReader.Observable, Prhp.CardSignal;
    if pass.now >= s.nextScan {
      CardReader.ObservationsWellFormed(s.device.reader, pass.scanAir);
      var (reader, r) := CardReader.Observe(s.device.reader, pass.scanAir);
      var s' := s.(nextScan := pass.now + SCAN_INTERVAL, device := s.device.(reader := reader));
      ClockIrrelevant(s, s'.device, s'.nextScan);
      if r.Err? {
        FailureKeeps(s', r);
      } else {
        ObservationKeeps(s', r.value, pass.signalArrives);
      }
    }
  }

  lemma InvAtStart()
    ensures Inv(START)
  {
    assert Session.Cached(NO_CARD, []) == Prhp.Project(CardReader.EMPTY);
  }

  lemma {:induction false} InvAfter(passes: seq<Pass>)
    ensures Inv(After(START, passes))
  {
    hide Inv, HandleMessage, Scan;
    if passes == [] {
      InvAtStart();
    } else {
      var before := After(START, passes[..|passes| - 1]);
      var pass := passes[|passes| - 1];
      InvAfter(passes[..|passes| - 1]);
      MessageStep(before, pass);
      ScanStep(HandleMessage(before, pass), pass);
    }
  }

  /**
   Each change is published once. Over every run of the loop, with any scan failures and any interleaved
   host messages, the published observations are exactly the successful scans with repeats of the
   preceding one removed, starting from the empty card; so no observation is published twice in a row.
   */
  lemma PublishesChanges(passes: seq<Pass>)
    ensures var s := After(START, passes);
            && s.published == Changes(CardReader.EMPTY, Successes(s.scans))
            && s.current == LastOr(CardReader.EMPTY, s.published)
            && forall k :: 0 < k < |s.published| ==> s.published[k] != s.published[k - 1]
  {
    hide After, Changes, Successes;
    InvAfter(passes);
    var s := After(START, passes);
    LastChange(CardReader.EMPTY, Successes(s.scans));
    ChangesDiffer(CardReader.EMPTY, Successes(s.scans));
    DropFirst(CardReader.EMPTY, s.published);
  }

  lemma DropFirst<T>(first: T, xs: seq<T>)
    requires var ys := [first] + xs; forall k :: 0 < k < |ys| ==> ys[k] != ys[k - 1]
    ensures forall k :: 0 < k < |xs| ==> xs[k] != xs[k - 1]
  {
    var ys := [first] + xs;
    forall k | 0 < k < |xs|
      ensures xs[k] != xs[k - 1]
    {
      assert ys[k + 1] != ys[k];
    }
  }

  /**
   Host and device agree. A host that receives the delivered reports caches the projection of the last
   observation whose signal arrived, no matter how many responses lie between the signals.
   */
  lemma HostShowsDelivered(passes: seq<Pass>)
    ensures var s := After(START, passes);
            Session.Cached(NO_CARD, s.delivered) == Prhp.Project(s.shown)
  {
    hide After;
    InvAfter(passes);
  }

  lemma {:induction false} ShownIsCurrent(passes: seq<Pass>)
    requires forall k :: 0 <= k < |passes| ==> passes[k].signalArrives
    ensures After(START, passes).shown == After(START, passes).current
  {
    hide CardReader.Observe, Prhp.Respond, Prhp.CardSignal, Sega.ReceiveAll;
    if passes != [] {
      ShownIsCurrent(passes[..|passes| - 1]);
    }
  }

  /** With every signal delivered, the host shows the projection of the last successful observation. */
  lemma HostShowsLastObservation(passes: seq<Pass>)
    requires forall k :: 0 <= k < |passes| ==> passes[k].signalArrives
    ensures var s := After(START, passes);
            Session.Cached(NO_CARD, s.delivered)
            == Prhp.Project(LastOr(CardReader.EMPTY, Successes(s.scans)))
  {
    hide After;
    InvAfter(passes);
    ShownIsCurrent(passes);
  }

  // ------------------------------------------- consecutive signals can be equal

  /** Two observations give the same signal exactly when the host cannot tell them apart. */
  lemma SameSignalExactly(a: CardReader.Card, b: CardReader.Card)
    requires CardReader.Observable(a) && CardReader.Observable(b)
    ensures Prhp.CardSignal(a) == Prhp.CardSignal(b) <==> Prhp.Project(a) == Prhp.Project(b)
  {
    hide Prhp.Project, DecodeCardStateSignal;
    Prhp.SignalDecodes(a);
    Prhp.SignalDecodes(b);
    if Prhp.Project(a) == Prhp.Project(b) {
      SameProjectionSameSignal(a, b);
    }
  }

  lemma SameProjectionSameSignal(a: CardReader.Card, b: CardReader.Card)
    requires CardReader.Observable(a) && CardReader.Observable(b) && Prhp.Project(a) == Prhp.Project(b)
    ensures Prhp.CardSignal(a) == Prhp.CardSignal(b)
  {
  }

  /** Two different observations that look the same: both shown as no card, or one card number with another chip. */
  predicate Lookalikes(a: CardReader.Card, b: CardReader.Card) {
    || (Prhp.Shown(a).NoCard? && Prhp.Shown(b).NoCard?)
    || (Prhp.Shown(a).Mifare? && Prhp.Shown(b).Mifare?
        && a.luid == b.luid && a.blocks == b.blocks && a.mifareUid != b.mifareUid)
    || (Prhp.Shown(a).Felica? && Prhp.Shown(b).Felica? && a.idm == b.idm && a.pmm != b.pmm)
  }

  lemma DifferentLookSame(a: CardReader.Card, b: CardReader.Card)
    requires CardReader.Observable(a) && CardReader.Observable(b) && a != b
    ensures Prhp.Project(a) == Prhp.Project(b) <==> Lookalikes(a, b)
  {
  }

  ghost predicate AllObservable(cards: seq<CardReader.Card>) {
    forall k :: 0 <= k < |cards| ==> CardReader.Observable(cards[k])
  }

  lemma {:induction false} PublishedObservable(passes: seq<Pass>)
    ensures AllObservable(After(START, passes).published)
  {
    hide CardReader.Observe, CardReader.Observable, Prhp.CardSignal, Prhp.Respond, Sega.ReceiveAll;
    if passes != [] {
      PublishedObservable(passes[..|passes| - 1]);
      var s := HandleMessage(After(START, passes[..|passes| - 1]), passes[|passes| - 1]);
      CardReader.ObservationsWellFormed(s.device.reader, passes[|passes| - 1].scanAir);
    }
  }

  /**
   When a signal repeats. Over every run of the loop two consecutive published observations, which always
   differ, give the same signal if and only if both are shown as no card, or they are MIFARE tags with the
   same code and blocks and another identifier, or FeliCa cards with the same IDm and another PMm.
   */
  lemma SignalRepeatsExactly(passes: seq<Pass>, k: nat)
    requires k + 1 < |After(START, passes).published|
    ensures var published := After(START, passes).published;
            && CardReader.Observable(published[k]) && CardReader.Observable(published[k + 1])
            && (Prhp.CardSignal(published[k]) == Prhp.CardSignal(published[k + 1])
                <==> Lookalikes(published[k], published[k + 1]))
  {
    hide After, CardReader.Observable, Prhp.CardSignal, Prhp.Project, Lookalikes, Changes, Successes;
    var published := After(START, passes).published;
    PublishesChanges(passes);
    PublishedObservable(passes);
    assert published[(k + 1) - 1] == published[k];
    SameSignalExactly(published[k], published[k + 1]);
    DifferentLookSame(published[k], published[k + 1]);
  }

  /** The field with one Type A tag that no key opens: it answers its own poll and refuses the rest. */
  function Unsupported(uid: seq<uint8>): Air
    requires |uid| == 4
  {
    (n: nat, code: uint8, request: seq<uint8>) =>
      if code == Pn532.IN_LIST_PASSIVE_TARGET && request == [0x01, 0x00] then
        Pn532.Framed(code, [1, 1, 0x00, 0x04, 0x08, 4] + uid)
      else if code == Pn532.IN_LIST_PASSIVE_TARGET then Pn532.Framed(code, [0])
      else Pn532.Framed(code, [0x14])
  }

  /** Polled for FeliCa and for Type A, and tried with any key, such a field shows the bare tag. */
  lemma UnsupportedObserved(s: CardReader.State, uid: seq<uint8>)
    requires CardReader.WellFormed(s) && s.radioEnabled && |uid| == 4
    ensures CardReader.Observe(s, Unsupported(uid)).1
            == Ok(CardReader.EMPTY.(cardType := CardReader.Mifare, mifareUid := uid))
    ensures CardReader.Observe(s, Unsupported(uid)).0.radioEnabled
  {
    hide Pn532.Command, Pn532.Framed;
    var air := Unsupported(uid);
    var felica := [0x01, 0x01, 0x00, s.systemCode / 0x100, s.systemCode % 0x100, 0x01, 0x00];
    assert |felica| != |[0x01, 0x00]|;
    Pn532.FramedReceived(air, 0, Pn532.IN_LIST_PASSIVE_TARGET, felica, 64, [0]);
    var response := [1, 1, 0x00, 0x04, 0x08, 4] + uid;
    Pn532.FramedReceived(air, 1, Pn532.IN_LIST_PASSIVE_TARGET, [0x01, 0x00], 64, response);
    assert response[6..10] == uid;
    KeyRefused(air, 2, uid, [1, 0x61, 2] + s.keys[CardReader.KEY_AIME] + uid);
    KeyRefused(air, 5, uid, [1, 0x60, 1] + s.keys[CardReader.KEY_BANA] + uid);
  }

  lemma KeyRefused(air: Air, n: nat, uid: seq<uint8>, request: seq<uint8>)
    requires |uid| == 4 && air == Unsupported(uid) && |request| <= 252
    ensures Pn532.Command(air, n, Pn532.IN_DATA_EXCHANGE, request, 8) == Ok([0x14])
  {
    hide Pn532.Command, Pn532.Framed;
    Pn532.FramedReceived(air, n, Pn532.IN_DATA_EXCHANGE, request, 8, [0x14]);
  }

  function QuietPass(now: int, air: Air): Pass {
    Pass(None, n => air, now, air, true, true)
  }

  /** One due pass over such a field, seen from a state that shows something else, publishes the bare tag. */
  lemma UnsupportedPass(s: State, uid: seq<uint8>)
    requires WellFormed(s) && s.device.reader.radioEnabled && |uid| == 4
    requires s.current != CardReader.EMPTY.(cardType := CardReader.Mifare, mifareUid := uid)
    ensures var s' := Tick(s, QuietPass(s.nextScan, Unsupported(uid)));
            var tag := CardReader.EMPTY.(cardType := CardReader.Mifare, mifareUid := uid);
            && s'.current == tag && s'.published == s.published + [tag]
            && s'.delivered == s.delivered + [Prhp.CardSignal(CardReader.EMPTY)]
            && s'.nextScan == s.nextScan + SCAN_INTERVAL && s'.device.reader.radioEnabled
  {
    hide CardReader.Observe, Unsupported;
    UnsupportedObserved(s.device.reader, uid);
    CardReader.ObservationsWellFormed(s.device.reader, Unsupported(uid));
    var tag := CardReader.EMPTY.(cardType := CardReader.Mifare, mifareUid := uid);
    assert Prhp.CardSignal(tag) == Prhp.CardSignal(CardReader.EMPTY);
  }

  /**
   Any two unsupported tags in a row are different observations, each published, and both appear as `NONE`:
   two equal signals delivered one after the other, which RFC 0001 (PRHP), section 8, does not foresee.
   */
  lemma UnsupportedTagsRepeatNone(first: seq<uint8>, second: seq<uint8>)
    requires |first| == |second| == 4 && first != second
    ensures var s := After(START, [QuietPass(0, Unsupported(first)), QuietPass(SCAN_INTERVAL, Unsupported(second))]);
            var none := Prhp.CardSignal(CardReader.EMPTY);
            && s.published == [CardReader.EMPTY.(cardType := CardReader.Mifare, mifareUid := first),
                               CardReader.EMPTY.(cardType := CardReader.Mifare, mifareUid := second)]
            && s.delivered == [none, none]
  {
    hide Tick, Unsupported, Prhp.CardSignal;
    var one, two := QuietPass(0, Unsupported(first)), QuietPass(SCAN_INTERVAL, Unsupported(second));
    assert [one, two][..1] == [one] && [one][..0] == [];
    var s := Tick(START, one);
    assert After(START, [one]) == s;
    assert After(START, [one, two]) == Tick(s, two);
    UnsupportedPass(START, first);
    UnsupportedPass(s, second);
  }
}
