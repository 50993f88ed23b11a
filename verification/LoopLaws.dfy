/**
 The main loop over whole runs, against its inputs alone: which passes scan, what each scan observes, what the
 CDC stream is parsed into and answered with, and which PRHP reports leave the device.
 */
module LoopLaws {
  import opened Wrappers
  import opened Bytes
  import opened Protocol
  import Pn532
  import CardReader
  import Prhp
  import SegaFraming
  import Sega
  import Session
  import opened App
  import Search

  // ---------------------------------------------------------------- the scans

  /** When the next scan is due after these passes: 200 ms behind the last pass that was due itself. */
  function NextDue(first: int, passes: seq<Pass>): int {
    if passes == [] then first
    else
      var due := NextDue(first, passes[..|passes| - 1]);
      if passes[|passes| - 1].now < due then due else passes[|passes| - 1].now + 200000
  }

  lemma {:induction false} ClockRuns(s: State, passes: seq<Pass>)
    requires WellFormed(s)
    ensures After(s, passes).nextScan == NextDue(s.nextScan, passes)
  {
    hide Sega.ReceiveAll, CardReader.Observe, Prhp.Respond, Prhp.CardSignal;
    if passes != [] {
      ClockRuns(s, passes[..|passes| - 1]);
    }
  }

  /** The reader as the scan of the last pass meets it, behind all earlier calls and those of the pass's message. */
  function ReaderMet(s: State, passes: seq<Pass>): (reader: CardReader.State)
    requires WellFormed(s) && passes != []
    ensures CardReader.WellFormed(reader)
  {
    var n := |passes| - 1;
    CardReader.After(s.device.reader,
                     Search.Ops(s, passes[..n]) + Search.MessageOps(After(s, passes[..n]), passes[n]))
  }

  /** The observations of the due passes, in order: what the reader it meets makes of the air of the pass. */
  function Observations(s: State, passes: seq<Pass>): seq<Scanned>
    requires WellFormed(s)
  {
    if passes == [] then []
    else
      var n := |passes| - 1;
      var earlier := Observations(s, passes[..n]);
      if passes[n].now < NextDue(s.nextScan, passes[..n]) then earlier
      else earlier + [CardReader.Observe(ReaderMet(s, passes), passes[n].scanAir).1]
  }

  lemma ReaderAtScan(s: State, passes: seq<Pass>)
    requires WellFormed(s) && passes != []
    ensures var n := |passes| - 1;
            HandleMessage(After(s, passes[..n]), passes[n]).device.reader == ReaderMet(s, passes)
  {
    hide After, HandleMessage, CardReader.After, Search.MessageOps;
    var n := |passes| - 1;
    Search.LoopMoves(s, passes[..n]);
    Search.MessageMoves(After(s, passes[..n]), passes[n]);
    CardReader.AfterConcat(s.device.reader, Search.Ops(s, passes[..n]),
                           Search.MessageOps(After(s, passes[..n]), passes[n]));
  }

  lemma MessageKeepsScans(s: State, pass: Pass)
    requires WellFormed(s)
    ensures var s' := HandleMessage(s, pass);
            && s'.scans == s.scans && s'.nextScan == s.nextScan && s'.current == s.current
            && s'.published == s.published && s'.shown == s.shown
  {
    hide Sega.ReceiveAll, Prhp.Respond;
  }

  lemma ScanLogs(s: State, pass: Pass)
    requires WellFormed(s)
    ensures Scan(s, pass).scans
            == if pass.now < s.nextScan then s.scans
               else s.scans + [CardReader.Observe(s.device.reader, pass.scanAir).1]
  {
    hide CardReader.Observe, Prhp.CardSignal;
  }

  /** Exactly the due passes scan, and each scan is logged as it came out. */
  lemma {:induction false} ScansLogged(s: State, passes: seq<Pass>)
    requires WellFormed(s)
    ensures After(s, passes).scans == s.scans + Observations(s, passes)
  {
    hide HandleMessage, Scan, CardReader.Observe, ReaderMet;
    if passes != [] {
      var n := |passes| - 1;
      var before := After(s, passes[..n]);
      ScansLogged(s, passes[..n]);
      ClockRuns(s, passes[..n]);
      ReaderAtScan(s, passes);
      MessageKeepsScans(before, passes[n]);
      ScanLogs(HandleMessage(before, passes[n]), passes[n]);
    }
  }

  /**
   Each change is published once, told from the air: the published observations are the successful outcomes of
   the due scans with repeats of the preceding one removed, starting from the empty card.
   */
  lemma PublishesObservedChanges(passes: seq<Pass>)
    ensures After(START, passes).published == Changes(CardReader.EMPTY, Successes(Observations(START, passes)))
    ensures After(START, passes).current == LastOr(CardReader.EMPTY, Successes(Observations(START, passes)))
  {
    hide After, Changes, Successes, Observations;
    ScansLogged(START, passes);
    assert START.scans + Observations(START, passes) == Observations(START, passes);
    InvAfter(passes);
  }

  /**
   What the host shows, told from the air: with all signals delivered, once the last due scan has observed a
   card, the empty one included, the host shows that card's projection.
   */
  lemma {:induction false} HostShowsScan(passes: seq<Pass>, card: CardReader.Card)
    requires forall k :: 0 <= k < |passes| ==> passes[k].signalArrives
    requires passes != [] && passes[|passes| - 1].now >= NextDue(0, passes[..|passes| - 1])
    requires CardReader.Observe(ReaderMet(START, passes), passes[|passes| - 1].scanAir).1 == Ok(card)
    ensures Session.Cached(NO_CARD, After(START, passes).delivered) == Prhp.Project(card)
  {
    hide After, CardReader.Observe, ReaderMet, Prhp.Project, Session.Cached, NextDue;
    HostShowsLastObservation(passes);
    ScansLogged(START, passes);
    var observed := Observations(START, passes);
    assert START.scans + observed == observed;
    SuccessesSnoc(Observations(START, passes[..|passes| - 1]), Ok(card));
  }

  /** A card taken away is taken off the host by the next due scan of an empty field. */
  lemma {:induction false} HostShowsRemoval(passes: seq<Pass>)
    requires forall k :: 0 <= k < |passes| ==> passes[k].signalArrives
    requires passes != [] && passes[|passes| - 1].now >= NextDue(0, passes[..|passes| - 1])
    requires CardReader.Observe(ReaderMet(START, passes), passes[|passes| - 1].scanAir).1 == Ok(CardReader.EMPTY)
    ensures Session.Cached(NO_CARD, After(START, passes).delivered) == Card(0, Zeros(10), Zeros(32), Zeros(8))
  {
    hide After, CardReader.Observe, ReaderMet, Session.Cached, NextDue;
    HostShowsScan(passes, CardReader.EMPTY);
  }

  // ------------------------------------------------------------ the CDC stream

  /** All bytes that came in over CDC. */
  function CdcBytes(passes: seq<Pass>): seq<uint8> {
    if passes == [] then []
    else
      var earlier := CdcBytes(passes[..|passes| - 1]);
      match passes[|passes| - 1].message
      case Some(Cdc(data)) => earlier + data
      case _ => earlier
  }

  /** The packets written back: per pass, the replies of the reader as the pass meets it. */
  function Packets(s: State, passes: seq<Pass>): seq<seq<uint8>>
    requires WellFormed(s)
  {
    if passes == [] then []
    else
      var n := |passes| - 1;
      var earlier := Packets(s, passes[..n]);
      match passes[n].message
      case Some(Cdc(data)) =>
        var parser := SegaFraming.Run(s.device.parser, CdcBytes(passes[..n])).state;
        var reader := CardReader.After(s.device.reader, Search.Ops(s, passes[..n]));
        earlier + Sega.Frames(Sega.Serve(reader, SegaFraming.Run(parser, data).frames, passes[n].requestAirs).1)
      case _ => earlier
  }

  lemma ScanKeepsStream(s: State, pass: Pass)
    requires WellFormed(s)
    ensures var d, d' := s.device, Scan(s, pass).device;
            d'.parser == d.parser && d'.dispatched == d.dispatched && d'.sent == d.sent
  {
    hide CardReader.Observe, Prhp.CardSignal;
  }

  lemma MessageFeedsStream(s: State, pass: Pass)
    requires WellFormed(s)
    ensures var d, d' := s.device, HandleMessage(s, pass).device;
            match pass.message
            case Some(Cdc(data)) =>
              var o := SegaFraming.Run(d.parser, data);
              && d'.parser == o.state && d'.dispatched == d.dispatched + o.frames
              && d'.sent == d.sent + Sega.Frames(Sega.Serve(d.reader, o.frames, pass.requestAirs).1)
            case _ => d' == d
  {
    hide SegaFraming.Run, Sega.Serve, Prhp.Respond;
  }

  /**
   The CDC side of the loop: scans and PRHP traffic in between do not disturb the stream. Parser and dispatched
   frames are those of one run over all bytes received, and the packets written are the replies to the frames of
   each pass from the reader that pass meets.
   */
  lemma {:induction false} CdcStream(s: State, passes: seq<Pass>)
    requires WellFormed(s)
    ensures var o, d := SegaFraming.Run(s.device.parser, CdcBytes(passes)), After(s, passes).device;
            && d.parser == o.state && d.dispatched == s.device.dispatched + o.frames
            && d.sent == s.device.sent + Packets(s, passes)
  {
    hide SegaFraming.Run, Sega.Serve, HandleMessage, Scan, Sega.Frames;
    if passes == [] {
      SegaFraming.RunNothing(s.device.parser);
    } else {
      var n := |passes| - 1;
      CdcStream(s, passes[..n]);
      CdcPass(s, passes);
    }
  }

  lemma CdcPass(s: State, passes: seq<Pass>)
    requires WellFormed(s) && passes != []
    requires var n := |passes| - 1;
             var o, d := SegaFraming.Run(s.device.parser, CdcBytes(passes[..n])), After(s, passes[..n]).device;
             && d.parser == o.state && d.dispatched == s.device.dispatched + o.frames
             && d.sent == s.device.sent + Packets(s, passes[..n])
    ensures var o, d := SegaFraming.Run(s.device.parser, CdcBytes(passes)), After(s, passes).device;
            && d.parser == o.state && d.dispatched == s.device.dispatched + o.frames
            && d.sent == s.device.sent + Packets(s, passes)
  {
    hide SegaFraming.Run, Sega.Serve, HandleMessage, Scan, Sega.Frames, Search.Ops;
    var n := |passes| - 1;
    var before := After(s, passes[..n]);
    Search.LoopMoves(s, passes[..n]);
    MessageFeedsStream(before, passes[n]);
    ScanKeepsStream(HandleMessage(before, passes[n]), passes[n]);
    match passes[n].message {
      case Some(Cdc(data)) =>
        SegaFraming.RunConcat(s.device.parser, CdcBytes(passes[..n]), data);
        var o := SegaFraming.Run(s.device.parser, CdcBytes(passes[..n]));
        ConcatAssociative(s.device.dispatched, o.frames, SegaFraming.Run(o.state, data).frames);
        var reader := CardReader.After(s.device.reader, Search.Ops(s, passes[..n]));
        ConcatAssociative(s.device.sent, Packets(s, passes[..n]),
          Sega.Frames(Sega.Serve(reader, SegaFraming.Run(o.state, data).frames, passes[n].requestAirs).1));
      case _ =>
    }
  }

  // --------------------------------------------------------- the PRHP reports

  /** The 64-byte reports received whose answers, if any, arrive. */
  function Heard(passes: seq<Pass>): seq<Report> {
    if passes == [] then []
    else
      var earlier := Heard(passes[..|passes| - 1]);
      match passes[|passes| - 1].message
      case Some(Hid(report)) =>
        if |report| == 64 && passes[|passes| - 1].replyArrives then earlier + [report] else earlier
      case _ => earlier
  }

  /** The reports of one type among those delivered, in order. */
  function OfType(messageType: uint8, reports: seq<Report>): seq<Report> {
    if reports == [] then []
    else
      var earlier := OfType(messageType, reports[..|reports| - 1]);
      if reports[|reports| - 1][0] == messageType then earlier + [reports[|reports| - 1]] else earlier
  }

  lemma {:induction false} OfTypeConcat(messageType: uint8, a: seq<Report>, b: seq<Report>)
    ensures OfType(messageType, a + b) == OfType(messageType, a) + OfType(messageType, b)
  {
    if b == [] {
      assert a + b == a;
    } else {
      assert (a + b)[..|a + b| - 1] == a + b[..|b| - 1];
      OfTypeConcat(messageType, a, b[..|b| - 1]);
    }
  }

  lemma {:induction false} OfOneType(messageType: uint8, reports: seq<Report>, sent: uint8)
    requires forall k :: 0 <= k < |reports| ==> reports[k][0] == sent
    ensures OfType(messageType, reports) == if messageType == sent then reports else []
  {
    if reports != [] {
      OfOneType(messageType, reports[..|reports| - 1], sent);
    }
  }

  lemma {:induction false} ServeSnoc(reports: seq<Report>, report: Report)
    ensures Prhp.Serve(reports + [report])
            == Prhp.Serve(reports) + match Prhp.Respond(report) case None => [] case Some(response) => [response]
  {
    hide Prhp.Respond;
    if reports == [] {
      assert [] + [report] == [report] && [report][1..] == [];
      assert Prhp.Serve([]) == [];
    } else {
      assert (reports + [report])[1..] == reports[1..] + [report];
      ServeSnoc(reports[1..], report);
    }
  }

  /** The signals of a list of published observations. */
  function SignalsOf(cards: seq<CardReader.Card>): seq<Report>
    requires AllObservable(cards)
  {
    seq(|cards|, i requires 0 <= i < |cards| => Prhp.CardSignal(cards[i]))
  }

  /** The answer to the message of a pass, if it owes one and the answer arrives. */
  function Answer(pass: Pass): seq<Report> {
    match pass.message
    case Some(Hid(report)) =>
      if |report| == 64 && pass.replyArrives && Prhp.Respond(report).Some? then [Prhp.Respond(report).value] else []
    case _ => []
  }

  lemma MessageDelivers(s: State, pass: Pass)
    requires WellFormed(s)
    ensures HandleMessage(s, pass).delivered == s.delivered + Answer(pass)
  {
    hide Sega.ReceiveAll, Prhp.Respond;
  }

  /** What a pass publishes: nothing, or the one observation that is current afterwards. */
  lemma ScanDelivers(s: State, pass: Pass) returns (news: seq<CardReader.Card>)
    requires WellFormed(s)
    ensures AllObservable(news) && Scan(s, pass).published == s.published + news
    ensures Scan(s, pass).delivered == s.delivered + if pass.signalArrives then SignalsOf(news) else []
  {
    hide CardReader.Observe, CardReader.Observable, Prhp.CardSignal;
    CardReader.ObservationsWellFormed(s.device.reader, pass.scanAir);
    var s' := Scan(s, pass);
    news := if s'.published == s.published then [] else [s'.current];
    assert SignalsOf([]) == [];
  }

  lemma SignalsAreSignals(cards: seq<CardReader.Card>)
    requires AllObservable(cards)
    ensures OfType(0x02, SignalsOf(cards)) == [] && OfType(0x03, SignalsOf(cards)) == SignalsOf(cards)
  {
    OfOneType(0x02, SignalsOf(cards), 0x03);
    OfOneType(0x03, SignalsOf(cards), 0x03);
  }

  lemma AnswersAreResponses(pass: Pass)
    ensures OfType(0x02, Answer(pass)) == Answer(pass) && OfType(0x03, Answer(pass)) == []
  {
    hide Prhp.Respond;
    if Answer(pass) != [] {
      Prhp.ResponseBytes(pass.message.value.report);
    }
    OfOneType(0x02, Answer(pass), 0x02);
    OfOneType(0x03, Answer(pass), 0x02);
  }

  lemma HeardSnoc(passes: seq<Pass>)
    requires passes != []
    ensures Prhp.Serve(Heard(passes)) == Prhp.Serve(Heard(passes[..|passes| - 1])) + Answer(passes[|passes| - 1])
  {
    hide Prhp.Respond, Prhp.Serve;
    var n := |passes| - 1;
    match passes[n].message {
      case Some(Hid(report)) =>
        if |report| == 64 {
          ServeSnoc(Heard(passes[..n]), report);
        }
      case _ =>
    }
  }

  /** One pass appends the answer it owes and the signals of what it publishes, nothing else. */
  lemma PassDelivers(s: State, pass: Pass) returns (news: seq<CardReader.Card>)
    requires WellFormed(s)
    ensures AllObservable(news) && Tick(s, pass).published == s.published + news
    ensures OfType(0x02, Tick(s, pass).delivered) == OfType(0x02, s.delivered) + Answer(pass)
    ensures OfType(0x03, Tick(s, pass).delivered)
            == OfType(0x03, s.delivered) + if pass.signalArrives then SignalsOf(news) else []
  {
    hide HandleMessage, Scan, OfType, Answer, SignalsOf, CardReader.Observable;
    var mid := HandleMessage(s, pass);
    MessageKeepsScans(s, pass);
    MessageDelivers(s, pass);
    news := ScanDelivers(mid, pass);
    var signals := if pass.signalArrives then SignalsOf(news) else [];
    AnswersAreResponses(pass);
    SignalsAreSignals(news);
    NoneOfType();
    OfTypeConcat(0x02, s.delivered, Answer(pass));
    OfTypeConcat(0x02, mid.delivered, signals);
    OfTypeConcat(0x03, s.delivered, Answer(pass));
    OfTypeConcat(0x03, mid.delivered, signals);
  }

  lemma NoneOfType()
    ensures OfType(0x02, []) == [] && OfType(0x03, []) == []
  {
  }

  /**
   Among the reports that reach the host, the responses are the answers to the 64-byte reports received, one for
   each that owes one and whose answer arrives, in order. Scans, SEGA traffic and signals do not touch them.
   */
  lemma {:induction false} ResponsesDelivered(passes: seq<Pass>)
    ensures OfType(0x02, After(START, passes).delivered) == Prhp.Serve(Heard(passes))
  {
    hide Tick, Answer;
    if passes == [] {
      NoneOfType();
    } else {
      var n := |passes| - 1;
      ResponsesDelivered(passes[..n]);
      HeardSnoc(passes);
      var news := PassDelivers(After(START, passes[..n]), passes[n]);
    }
  }

  /** The other reports that reach the host are, when no signal is lost, one signal for each observation published. */
  lemma {:induction false} SignalsDelivered(passes: seq<Pass>)
    requires forall k :: 0 <= k < |passes| ==> passes[k].signalArrives
    ensures AllObservable(After(START, passes).published)
    ensures OfType(0x03, After(START, passes).delivered) == SignalsOf(After(START, passes).published)
  {
    hide Tick, Answer, CardReader.Observable, Prhp.CardSignal;
    if passes == [] {
      NoneOfType();
    } else {
      var n := |passes| - 1;
      SignalsDelivered(passes[..n]);
      var before := After(START, passes[..n]);
      var news := PassDelivers(before, passes[n]);
      assert SignalsOf(before.published) + SignalsOf(news) == SignalsOf(before.published + news);
    }
  }
}
