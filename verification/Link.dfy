/**
 One session among its goroutines: the read loop that receives and routes, the verifier that allocates a
 call, asks and waits on the call's channel, and the table of pending calls between them, which may drop an
 entry at any moment. Each allocation and each consumption goes through the steps of `CallerRaces`.
 */
module Link {
  import opened Wrappers
  import opened Bytes
  import opened Protocol
  import Caller
  import CallerRaces
  import Session

  type Raw = Session.Raw

  /** The two goroutines that use the table. */
  const VERIFIER: CallerRaces.Thread := 0
  const READER: CallerRaces.Thread := 1

  /**
   `routing` is a response the read loop has received and not yet looked up; `call` the verifier's call,
   `asked` that the transport took the request made for it, `taken` what came out of its channel.
   */
  datatype State = State(loop: Session.Loop, routing: Option<Raw>, calls: CallerRaces.State,
                         call: Option<CallerRaces.CallId>, asked: bool, taken: Option<Raw>)

  const STARTED := State(Session.STARTED, None, CallerRaces.START, None, false, None)

  datatype Action =
    | Receive(raw: Raw)
    | Consume
    | WindUp(step: Session.LoopAction)
    | Expire(sequence: uint16)
    | Allocate
    | Ask
    | Take

  /** The read loop is between two reports. */
  predicate Free(s: State) {
    s.routing.None? && CallerRaces.PcOf(s.calls, READER).Idle?
  }

  function SequenceIn(raw: Raw): uint16 {
    if DecodeHeader(raw).Ok? then DecodeHeader(raw).value.sequence else 0
  }

  /** The next step of `Consume`; `None` when the lookup finds nothing. */
  function ConsumeStep(s: State): Option<CallerRaces.Action> {
    match s.routing
    case Some(raw) =>
      if SequenceIn(raw) in s.calls.entries then Some(CallerRaces.Get(READER, SequenceIn(raw), raw)) else None
    case None =>
      match CallerRaces.PcOf(s.calls, READER)
      case Found(call, _, _) =>
        if call in s.calls.calls && s.calls.calls[call].consumed then Some(CallerRaces.Lose(READER))
        else Some(CallerRaces.Win(READER))
      case Won(_, _, _) => Some(CallerRaces.Remove(READER))
      case _ => Some(CallerRaces.Send(READER))
  }

  /** The next step of `Allocate`. */
  function AllocateStep(s: State): CallerRaces.Action {
    match CallerRaces.PcOf(s.calls, VERIFIER)
    case Drawn(draw, attempts) =>
      if !CallerRaces.Unusable(s.calls, draw) then CallerRaces.Miss(VERIFIER)
      else if attempts + 1 < Caller.MAX_ATTEMPTS then CallerRaces.Retry(VERIFIER)
      else CallerRaces.GiveUp(VERIFIER)
    case Again(_) => CallerRaces.Redraw(VERIFIER)
    case Free(_) => CallerRaces.Add(VERIFIER)
    case _ => CallerRaces.Draw(VERIFIER)
  }

  predicate Enabled(s: State, a: Action) {
    match a
    case Receive(_) => Free(s) && s.loop.pc.Reading?
    case Consume =>
      !Free(s) && (ConsumeStep(s).Some? ==> CallerRaces.Enabled(s.calls, ConsumeStep(s).value))
    case WindUp(step) => Free(s) && !step.Receive? && Session.LoopEnabled(s.loop, step)
    case Expire(sequence) => CallerRaces.Enabled(s.calls, CallerRaces.Expire(sequence))
    case Allocate => s.call.None? && CallerRaces.Enabled(s.calls, AllocateStep(s))
    case Ask => s.call.Some? && !s.asked
    case Take =>
      && s.call.Some? && s.asked && s.taken.None?
      && CallerRaces.Enabled(s.calls, CallerRaces.Receive(s.call.value))
  }

  function Apply(s: State, a: Action): State
    requires Enabled(s, a)
  {
    match a
    case Receive(raw) =>
      s.(loop := Session.LoopStep(s.loop, Session.Receive(raw)),
         routing := if Session.IsResponse(raw) then Some(raw) else None)
    case Consume =>
      var step := ConsumeStep(s);
      s.(routing := None, calls := if step.Some? then CallerRaces.Apply(s.calls, step.value) else s.calls)
    case WindUp(step) => s.(loop := Session.LoopStep(s.loop, step))
    case Expire(sequence) => s.(calls := CallerRaces.Apply(s.calls, CallerRaces.Expire(sequence)))
    case Allocate =>
      var pc := CallerRaces.PcOf(s.calls, VERIFIER);
      s.(calls := CallerRaces.Apply(s.calls, AllocateStep(s)), call := if pc.Free? then Some(pc.draw) else None)
    case Ask => s.(asked := true)
    case Take =>
      s.(calls := CallerRaces.Apply(s.calls, CallerRaces.Receive(s.call.value)),
         taken := Some(s.calls.calls[s.call.value].channel[0]))
  }

  // ------------------------------------------------------------- the invariant

  /** The report was received on this session and answers the call. */
  predicate Answer(s: State, raw: Raw, sequence: uint16) {
    raw in s.loop.received && Session.AnswersCall(raw, sequence)
  }

  /** Every response on its way to a call was received for that call's sequence. */
  ghost predicate TracedOk(s: State) {
    && (s.routing.Some? ==> Answer(s, s.routing.value, SequenceIn(s.routing.value)))
    && (var pc := CallerRaces.PcOf(s.calls, READER);
        pc.Found? || pc.Won? || pc.Removed? ==> Answer(s, pc.raw, pc.sequence))
    && (forall c, raw | c in s.calls.calls && raw in s.calls.calls[c].sent :: Answer(s, raw, Caller.SequenceOf(c)))
    && (s.taken.Some? ==> s.call.Some? && Answer(s, s.taken.value, Caller.SequenceOf(s.call.value)))
  }

  /** Nobody else uses the table, and neither goroutine does the other's part. */
  ghost predicate ThreadsOk(s: State) {
    && !CallerRaces.PcOf(s.calls, READER).Drawn? && !CallerRaces.PcOf(s.calls, READER).Again?
    && !CallerRaces.PcOf(s.calls, READER).Free?
    && (s.routing.Some? ==> CallerRaces.PcOf(s.calls, READER).Idle?)
    && !CallerRaces.PcOf(s.calls, VERIFIER).Found? && !CallerRaces.PcOf(s.calls, VERIFIER).Won?
    && !CallerRaces.PcOf(s.calls, VERIFIER).Removed?
  }

  /** The verifier's is the first call of all: the first draw is neither zero nor taken. */
  ghost predicate VerifierOk(s: State) {
    && (s.asked ==> s.call.Some?) && (s.taken.Some? ==> s.asked)
    && (s.call.Some? ==> s.call.value == 1 && 1 in s.calls.calls && CallerRaces.PcOf(s.calls, VERIFIER).Idle?)
    && (s.call.None? ==>
          && s.calls.entries == map[]
          && match CallerRaces.PcOf(s.calls, VERIFIER)
             case Idle => s.calls.draws == 0
             case Drawn(draw, attempts) => draw == 1 && attempts == 0
             case Free(draw) => draw == 1
             case _ => false)
  }

  ghost predicate Ok(s: State) {
    Session.LoopOk(s.loop) && CallerRaces.Inv(s.calls) && TracedOk(s) && ThreadsOk(s) && VerifierOk(s)
  }

  lemma OkAtStart()
    ensures Ok(STARTED)
  {
    CallerRaces.InvAtStart();
  }

  lemma LoopKeeps(s: State, a: Action)
    requires Session.LoopOk(s.loop) && Enabled(s, a)
    ensures Session.LoopOk(Apply(s, a).loop)
    ensures s.loop.received <= Apply(s, a).loop.received
    ensures s.loop.done ==> Apply(s, a).loop.done
  {
    hide Session.LoopOk, CallerRaces.Apply, CallerRaces.Enabled, ConsumeStep, AllocateStep;
    if a.Receive? {
      Session.LoopOkStep(s.loop, Session.Receive(a.raw));
    } else if a.WindUp? {
      Session.LoopOkStep(s.loop, a.step);
    }
  }

  /** The table moves by steps of `CallerRaces` or not at all. */
  function TableStep(s: State, a: Action): Option<CallerRaces.Action>
    requires Enabled(s, a)
  {
    match a
    case Consume => ConsumeStep(s)
    case Expire(sequence) => Some(CallerRaces.Expire(sequence))
    case Allocate => Some(AllocateStep(s))
    case Take => Some(CallerRaces.Receive(s.call.value))
    case _ => None
  }

  lemma TableKeeps(s: State, a: Action)
    requires CallerRaces.Inv(s.calls) && Enabled(s, a)
    ensures var step := TableStep(s, a);
            && (step.Some? ==> CallerRaces.Enabled(s.calls, step.value))
            && Apply(s, a).calls == (if step.Some? then CallerRaces.Apply(s.calls, step.value) else s.calls)
            && CallerRaces.Inv(Apply(s, a).calls)
  {
    hide CallerRaces.Inv, CallerRaces.Apply, CallerRaces.Enabled, ConsumeStep, AllocateStep, Free, Session.LoopStep;
    if TableStep(s, a).Some? {
      CallerRaces.InvStep(s.calls, TableStep(s, a).value);
    }
  }

  lemma ThreadsKeep(s: State, a: Action)
    requires ThreadsOk(s) && Enabled(s, a)
    ensures ThreadsOk(Apply(s, a))
  {
    hide Caller.SequenceOf, CallerRaces.Unusable, DecodeHeader, Session.LoopStep;
  }

  lemma AllocateKeeps(s: State)
    requires VerifierOk(s) && Enabled(s, Allocate)
    ensures VerifierOk(Apply(s, Allocate))
  {
    Caller.SequenceIgnoresWrap(1);
    hide Caller.SequenceOf, DecodeHeader, Session.LoopStep;
  }

  /** A step of another thread than the verifier that neither draws nor adds. */
  predicate Quiet(step: CallerRaces.Action) {
    !step.Draw? && !step.Redraw? && !step.Add? && CallerRaces.Mover(step) != Some(VERIFIER)
  }

  lemma QuietStep(c: CallerRaces.State, step: CallerRaces.Action)
    requires CallerRaces.Enabled(c, step) && Quiet(step)
    ensures var c' := CallerRaces.Apply(c, step);
            && c'.draws == c.draws && c'.entries.Keys <= c.entries.Keys && c.calls.Keys <= c'.calls.Keys
            && CallerRaces.PcOf(c', VERIFIER) == CallerRaces.PcOf(c, VERIFIER)
  {
    hide Caller.SequenceOf, CallerRaces.Unusable;
  }

  lemma OthersAreQuiet(s: State, a: Action)
    requires Enabled(s, a) && !a.Allocate? && TableStep(s, a).Some?
    ensures Quiet(TableStep(s, a).value)
  {
    hide Caller.SequenceOf, DecodeHeader, Session.LoopStep, CallerRaces.Unusable, CallerRaces.Enabled;
  }

  /** What anyone else does to the table adds no entry and draws nothing, and leaves the verifier alone. */
  lemma OthersAdd(s: State, a: Action)
    requires CallerRaces.Inv(s.calls) && Enabled(s, a) && !a.Allocate?
    ensures var c, c' := s.calls, Apply(s, a).calls;
            && c'.draws == c.draws && c'.entries.Keys <= c.entries.Keys && c.calls.Keys <= c'.calls.Keys
            && CallerRaces.PcOf(c', VERIFIER) == CallerRaces.PcOf(c, VERIFIER)
  {
    hide CallerRaces.Apply, CallerRaces.Enabled, CallerRaces.Inv, CallerRaces.PcOf, Enabled, Apply, TableStep, Quiet;
    TableKeeps(s, a);
    if TableStep(s, a).Some? {
      OthersAreQuiet(s, a);
      QuietStep(s.calls, TableStep(s, a).value);
    }
  }

  lemma VerifierKeeps(s: State, a: Action)
    requires VerifierOk(s) && CallerRaces.Inv(s.calls) && Enabled(s, a)
    ensures VerifierOk(Apply(s, a))
  {
    hide CallerRaces.Inv, Session.LoopStep, CallerRaces.Apply, CallerRaces.Enabled, AllocateStep, ConsumeStep, Free;
    if a.Allocate? {
      AllocateKeeps(s);
    } else {
      OthersAdd(s, a);
      assert s.calls.entries == map[] ==> Apply(s, a).calls.entries == map[];
    }
  }

  lemma AnswerLater(s: State, s': State, raw: Raw, sequence: uint16)
    requires Answer(s, raw, sequence) && s.loop.received <= s'.loop.received
    ensures Answer(s', raw, sequence)
  {
    hide Session.AnswersCall;
    var k :| 0 <= k < |s.loop.received| && s.loop.received[k] == raw;
    assert s'.loop.received[k] == raw;
  }

  lemma ReceivedIsTraced(s: State, raw: Raw)
    requires Enabled(s, Receive(raw)) && Session.IsResponse(raw)
    ensures Answer(Apply(s, Receive(raw)), raw, SequenceIn(raw))
  {
    assert (s.loop.received + [raw])[|s.loop.received|] == raw;
  }

  /** What the reader carries after a step, it carried or was routing before. */
  lemma CarriedTraced(s: State, a: Action)
    requires TracedOk(s) && ThreadsOk(s) && Enabled(s, a)
    requires var pc := CallerRaces.PcOf(Apply(s, a).calls, READER); pc.Found? || pc.Won? || pc.Removed?
    ensures var pc := CallerRaces.PcOf(Apply(s, a).calls, READER); Answer(s, pc.raw, pc.sequence)
  {
    hide Caller.SequenceOf, CallerRaces.Unusable, DecodeHeader, Session.LoopStep, Answer;
  }

  lemma SentTraced(s: State, a: Action, c: CallerRaces.CallId, raw: Raw)
    requires CallerRaces.Inv(s.calls) && TracedOk(s) && ThreadsOk(s) && Enabled(s, a)
    requires c in Apply(s, a).calls.calls && raw in Apply(s, a).calls.calls[c].sent
    ensures Answer(s, raw, Caller.SequenceOf(c))
  {
    hide Caller.SequenceOf, CallerRaces.Unusable, DecodeHeader, Session.LoopStep, Answer, CallerRaces.Apply,
         CallerRaces.Enabled;
    TableKeeps(s, a);
    var step := TableStep(s, a);
    if step.Some? {
      CallerRaces.SentOrigin(s.calls, step.value, c, raw);
      if !(c in s.calls.calls && raw in s.calls.calls[c].sent) {
        assert step.value.t == READER;
        assert CallerRaces.ThreadOk(s.calls, s.calls.threads[READER]);
      }
    }
  }

  lemma TakenTraced(s: State, a: Action)
    requires CallerRaces.Inv(s.calls) && TracedOk(s) && Enabled(s, a) && Apply(s, a).taken.Some?
    ensures Apply(s, a).call == s.call && s.call.Some?
    ensures Answer(s, Apply(s, a).taken.value, Caller.SequenceOf(s.call.value))
  {
    hide Caller.SequenceOf, DecodeHeader, Session.LoopStep, Answer, CallerRaces.Apply, AllocateStep, ConsumeStep;
    if a.Take? {
      var call := s.calls.calls[s.call.value];
      assert CallerRaces.CallOk(call);
      assert call.channel[0] in call.sent;
    }
  }

  lemma TracedKeeps(s: State, a: Action)
    requires Ok(s) && Enabled(s, a)
    ensures TracedOk(Apply(s, a))
  {
    hide Caller.SequenceOf, Answer, Enabled, Apply, ThreadsOk, VerifierOk, CallerRaces.Inv, SequenceIn;
    var s' := Apply(s, a);
    LoopKeeps(s, a);
    if s'.routing.Some? {
      RoutingKeeps(s, a);
    }
    var pc := CallerRaces.PcOf(s'.calls, READER);
    if pc.Found? || pc.Won? || pc.Removed? {
      CarriedTraced(s, a);
      AnswerLater(s, s', pc.raw, pc.sequence);
    }
    forall c, raw | c in s'.calls.calls && raw in s'.calls.calls[c].sent
      ensures Answer(s', raw, Caller.SequenceOf(c))
    {
      SentTraced(s, a, c, raw);
      AnswerLater(s, s', raw, Caller.SequenceOf(c));
    }
    if s'.taken.Some? {
      TakenTraced(s, a);
      AnswerLater(s, s', s'.taken.value, Caller.SequenceOf(s.call.value));
    }
  }

  lemma RoutingKeeps(s: State, a: Action)
    requires TracedOk(s) && Session.LoopOk(s.loop) && Enabled(s, a) && Apply(s, a).routing.Some?
    ensures Answer(Apply(s, a), Apply(s, a).routing.value, SequenceIn(Apply(s, a).routing.value))
  {
    hide Caller.SequenceOf, Answer, CallerRaces.Apply, CallerRaces.Enabled, ConsumeStep, AllocateStep, DecodeHeader,
         Session.LoopStep, SequenceIn;
    LoopKeeps(s, a);
    if a.Receive? {
      ReceivedIsTraced(s, a.raw);
    } else {
      AnswerLater(s, Apply(s, a), s.routing.value, SequenceIn(s.routing.value));
    }
  }

  lemma OkStep(s: State, a: Action)
    requires Ok(s) && Enabled(s, a)
    ensures Ok(Apply(s, a))
  {
    hide Session.LoopOk, CallerRaces.Inv, TracedOk, ThreadsOk, VerifierOk, Enabled, Apply;
    LoopKeeps(s, a);
    TableKeeps(s, a);
    TracedKeeps(s, a);
    ThreadsKeep(s, a);
    VerifierKeeps(s, a);
  }

  // ------------------------------------------------------------------ the answer

  /** What the verifier took is a report received here for its own request's sequence. */
  lemma TakenIsOwnAnswer(s: State)
    requires Ok(s) && s.taken.Some?
    ensures s.asked && s.call.Some? && Answer(s, s.taken.value, Caller.SequenceOf(s.call.value))
  {
    hide Caller.SequenceOf, Answer;
  }

  predicate IsVerifierAction(a: Action) {
    a.Allocate? || a.Ask? || a.Take?
  }

  /** Each goroutine leaves the other's part of the session alone, and a session that is done stays so. */
  lemma PartsKept(s: State, a: Action)
    requires Enabled(s, a)
    ensures var s' := Apply(s, a);
            if IsVerifierAction(a) then
              s'.loop == s.loop && s'.routing == s.routing
            else
              && s'.call == s.call && s'.asked == s.asked && s'.taken == s.taken
              && (s.loop.done ==> s'.loop.done)
  {
    hide CallerRaces.Apply, CallerRaces.Enabled, ConsumeStep, AllocateStep, Free;
  }

  /** How the verifier's own steps move it on. */
  lemma VerifierMoves(s: State, a: Action)
    requires Ok(s) && Enabled(s, a) && IsVerifierAction(a)
    ensures var s' := Apply(s, a);
            match a
            case Allocate => !s'.asked && s'.taken.None?
            case Ask => s'.asked && s'.taken.None?
            case _ => s'.taken.Some?
  {
    hide CallerRaces.Apply, CallerRaces.Enabled, AllocateStep, CallerRaces.Inv, TracedOk, ThreadsOk;
  }

  // ------------------------------------------------------- a session that verifies

  /** The verifier's call is in the table, and the transport took the request. */
  const ASKED := State(Session.STARTED, None,
                       CallerRaces.State(1, map[1 := 1], map[1 := CallerRaces.FRESH_CALL],
                                         map[VERIFIER := CallerRaces.Idle]),
                       Some(1), true, None)

  lemma FirstAllocation()
    ensures Enabled(STARTED, Allocate)
    ensures var a := Apply(STARTED, Allocate);
            && a.call.None? && Enabled(a, Allocate)
            && var b := Apply(a, Allocate);
               && b.call.None? && Enabled(b, Allocate)
               && var c := Apply(b, Allocate);
                  c.call.Some? && Enabled(c, Ask) && Apply(c, Ask) == ASKED
  {
    Caller.SequenceIgnoresWrap(1);
    hide Caller.SequenceOf;
    var a := Apply(STARTED, Allocate);
    var b := Apply(a, Allocate);
    assert a.calls.threads == map[VERIFIER := CallerRaces.Drawn(1, 0)];
    assert b.calls.threads == map[VERIFIER := CallerRaces.Free(1)];
    assert Apply(b, Allocate).calls.threads == map[VERIFIER := CallerRaces.Idle];
  }

  /** The reader has received the answer and has come this far with handing it to the call. */
  function Routed(raw: Raw, pc: CallerRaces.Pc, entries: map<uint16, CallerRaces.CallId>, call: CallerRaces.Call)
    : State
  {
    State(Session.LoopStep(Session.STARTED, Session.Receive(raw)), None,
          CallerRaces.State(1, entries, map[1 := call], map[VERIFIER := CallerRaces.Idle, READER := pc]),
          Some(1), true, None)
  }

  /** The verifier took the answer out of its call's channel. */
  function Answered(raw: Raw): State {
    Routed(raw, CallerRaces.Idle, map[], CallerRaces.Call(true, [], [raw], 1, 1)).(taken := Some(raw))
  }

  lemma AnswerFound(raw: Raw)
    requires Session.IsResponse(raw) && SequenceIn(raw) == 1
    ensures Enabled(ASKED, Receive(raw)) && Enabled(Apply(ASKED, Receive(raw)), Consume)
    ensures Apply(Apply(ASKED, Receive(raw)), Consume)
            == Routed(raw, CallerRaces.Found(1, 1, raw), map[1 := 1], CallerRaces.FRESH_CALL)
  {
    hide Session.IsResponse, Session.Latest, SequenceIn;
    var found := Apply(Apply(ASKED, Receive(raw)), Consume);
    assert found.calls.threads == map[VERIFIER := CallerRaces.Idle, READER := CallerRaces.Found(1, 1, raw)];
  }

  lemma AnswerWon(raw: Raw)
    ensures var found := Routed(raw, CallerRaces.Found(1, 1, raw), map[1 := 1], CallerRaces.FRESH_CALL);
            Enabled(found, Consume)
            && Apply(found, Consume)
               == Routed(raw, CallerRaces.Won(1, 1, raw), map[1 := 1], CallerRaces.Call(true, [], [], 1, 1))
  {
    hide Session.LoopStep;
    var won := Apply(Routed(raw, CallerRaces.Found(1, 1, raw), map[1 := 1], CallerRaces.FRESH_CALL), Consume);
    assert won.calls.threads == map[VERIFIER := CallerRaces.Idle, READER := CallerRaces.Won(1, 1, raw)];
    assert won.calls.calls == map[1 := CallerRaces.Call(true, [], [], 1, 1)];
  }

  lemma AnswerRemoved(raw: Raw)
    ensures var won := Routed(raw, CallerRaces.Won(1, 1, raw), map[1 := 1], CallerRaces.Call(true, [], [], 1, 1));
            Enabled(won, Consume)
            && Apply(won, Consume)
               == Routed(raw, CallerRaces.Removed(1, 1, raw), map[], CallerRaces.Call(true, [], [], 1, 1))
  {
    hide Session.LoopStep;
    var won := Routed(raw, CallerRaces.Won(1, 1, raw), map[1 := 1], CallerRaces.Call(true, [], [], 1, 1));
    var removed := Apply(won, Consume);
    assert removed.calls.threads == map[VERIFIER := CallerRaces.Idle, READER := CallerRaces.Removed(1, 1, raw)];
    assert removed.calls.entries == map[];
  }

  lemma AnswerSent(raw: Raw)
    ensures var removed := Routed(raw, CallerRaces.Removed(1, 1, raw), map[], CallerRaces.Call(true, [], [], 1, 1));
            Enabled(removed, Consume)
            && Apply(removed, Consume)
               == Routed(raw, CallerRaces.Idle, map[], CallerRaces.Call(true, [raw], [raw], 1, 1))
  {
    hide Session.LoopStep;
    var removed := Routed(raw, CallerRaces.Removed(1, 1, raw), map[], CallerRaces.Call(true, [], [], 1, 1));
    var sent := Apply(removed, Consume);
    assert sent.calls.threads == map[VERIFIER := CallerRaces.Idle, READER := CallerRaces.Idle];
    assert [] + [raw] == [raw];
    assert sent.calls.calls == map[1 := CallerRaces.Call(true, [raw], [raw], 1, 1)];
  }

  lemma AnswerTaken(raw: Raw)
    ensures var sent := Routed(raw, CallerRaces.Idle, map[], CallerRaces.Call(true, [raw], [raw], 1, 1));
            Enabled(sent, Take) && Apply(sent, Take) == Answered(raw)
  {
    hide Session.LoopStep;
    var taken := Apply(Routed(raw, CallerRaces.Idle, map[], CallerRaces.Call(true, [raw], [raw], 1, 1)), Take);
    assert [raw][1..] == [];
    assert taken.calls.calls == map[1 := CallerRaces.Call(true, [], [raw], 1, 1)];
  }

  /** The reader's five steps from receiving the answer to sending it to the call. */
  lemma AnswerRouted(raw: Raw)
    requires Session.IsResponse(raw) && SequenceIn(raw) == 1
    ensures Enabled(ASKED, Receive(raw))
    ensures var a := Apply(ASKED, Receive(raw));
            && Enabled(a, Consume) && Enabled(Apply(a, Consume), Consume)
            && var b := Apply(Apply(a, Consume), Consume);
               && Enabled(b, Consume) && Enabled(Apply(b, Consume), Consume)
               && var c := Apply(Apply(b, Consume), Consume);
                  Enabled(c, Take) && Apply(c, Take) == Answered(raw)
  {
    hide Enabled, Apply, Routed, Answered;
    AnswerFound(raw);
    AnswerWon(raw);
    AnswerRemoved(raw);
    AnswerSent(raw);
    AnswerTaken(raw);
  }

  // -------------------------------------------------------------------- progress

  /** How many steps the reader has to go until it can read or wind up again. */
  function Busy(s: State): nat {
    if s.routing.Some? then 4
    else match CallerRaces.PcOf(s.calls, READER)
         case Found(_, _, _) => 3
         case Won(_, _, _) => 2
         case Removed(_, _, _) => 1
         case _ => 0
  }

  /** A response being routed never blocks the read loop, and is dealt with in at most four steps. */
  lemma RoutingGoesOn(s: State)
    requires Ok(s) && !Free(s)
    ensures Enabled(s, Consume) && Busy(Apply(s, Consume)) < Busy(s)
  {
    hide Caller.SequenceOf, DecodeHeader, TracedOk, VerifierOk;
    if s.routing.None? {
      assert CallerRaces.ThreadOk(s.calls, s.calls.threads[READER]);
      assert CallerRaces.CallOk(s.calls.calls[s.calls.threads[READER].call]);
    }
  }

  /** Nothing but receiving a report gives the read loop more to do. */
  lemma OnlyReceiveBusies(s: State, a: Action)
    requires ThreadsOk(s) && Enabled(s, a) && !a.Receive?
    ensures Busy(Apply(s, a)) <= Busy(s)
  {
    hide Caller.SequenceOf, DecodeHeader, CallerRaces.Unusable, Session.LoopStep;
  }
}
