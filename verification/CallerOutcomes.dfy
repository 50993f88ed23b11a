/** How the calls of `Allocate` and `Consume` end, each over any run in which it interleaves with all others. */
module CallerOutcomes {
  import opened Wrappers
  import opened Bytes
  import opened Caller
  import opened CallerRaces

  // ------------------------------------------------------------------- Allocate

  /** The thread is in the call it began at step `k`. */
  ghost predicate Allocates(run: Run, k: nat, i: nat, t: Thread) {
    && IsRun(run) && k < i < |run.states| && run.actions[k] == Draw(t)
    && forall l :: k < l < i ==> !PcOf(run.states[l], t).Idle?
  }

  /** How many sequences the thread has drawn by its steps from `k` up to `i`. */
  function Draws(actions: seq<Action>, t: Thread, k: nat, i: nat): nat
    requires k <= i <= |actions|
  {
    if i == k then 0
    else Draws(actions, t, k, i - 1) + if actions[i - 1] == Draw(t) || actions[i - 1] == Redraw(t) then 1 else 0
  }

  /** Where a thread stands that has drawn `n` sequences in its call. */
  predicate Standing(pc: Pc, n: nat) {
    match pc
    case Drawn(_, attempts) => attempts + 1 == n
    case Again(attempts) => attempts == n
    case Free(_) => true
    case _ => false
  }

  lemma StandingStep(s: State, a: Action, t: Thread, n: nat)
    requires Enabled(s, a) && Standing(PcOf(s, t), n) && !PcOf(Apply(s, a), t).Idle?
    ensures Standing(PcOf(Apply(s, a), t), n + if a == Draw(t) || a == Redraw(t) then 1 else 0)
  {
    hide SequenceOf;
  }

  lemma DrawStarts(s: State, t: Thread)
    requires Enabled(s, Draw(t))
    ensures PcOf(Apply(s, Draw(t)), t) == Drawn(s.draws + 1, 0)
  {
  }

  lemma {:induction false} StandsAt(run: Run, k: nat, i: nat, t: Thread)
    requires Allocates(run, k, i, t) && !PcOf(run.states[i], t).Idle?
    ensures Standing(PcOf(run.states[i], t), Draws(run.actions, t, k, i))
    decreases i
  {
    hide Enabled, Apply, PcOf, Standing;
    assert Taken(run, i - 1);
    if i == k + 1 {
      DrawStarts(run.states[k], t);
      assert Draws(run.actions, t, k, k) == 0;
      FirstStanding(PcOf(run.states[i], t));
    } else {
      StandsAt(run, k, i - 1, t);
      StandingStep(run.states[i - 1], run.actions[i - 1], t, Draws(run.actions, t, k, i - 1));
    }
  }

  lemma FirstStanding(pc: Pc)
    requires pc.Drawn? && pc.attempts == 0
    ensures Standing(pc, 1)
  {
  }

  /** At this step the thread found the sequence it had drawn to be zero, or the sequence of a live entry. */
  predicate Refused(s: State, t: Thread) {
    var pc := PcOf(s, t);
    pc.Drawn? && (SequenceOf(pc.draw) == 0 || SequenceOf(pc.draw) in s.entries)
  }

  lemma RefusedStep(s: State, a: Action, t: Thread, n: nat)
    requires Enabled(s, a) && Standing(PcOf(s, t), n)
    ensures a == Retry(t) || a == GiveUp(t) ==> Refused(s, t)
    ensures a == Retry(t) ==> n < 0xFFFF
    ensures a == Miss(t) ==> PcOf(s, t).Drawn? && !Refused(s, t)
    ensures PcOf(Apply(s, a), t).Idle? ==> (a == GiveUp(t) && n >= 0xFFFF) || a == Add(t)
  {
  }

  /**
   How an allocation ends: it adds a call; or it gives up, having drawn 65535 sequences and found each of them zero
   or taken when it looked it up. It draws again only behind such a sequence.
   */
  lemma AllocationOutcome(run: Run, k: nat, m: nat, t: Thread)
    requires Allocates(run, k, m, t) && PcOf(run.states[m], t).Idle?
    ensures run.actions[m - 1] == Add(t) || (run.actions[m - 1] == GiveUp(t) && Draws(run.actions, t, k, m) == 0xFFFF)
    ensures forall l :: k < l < m && (run.actions[l] == Retry(t) || run.actions[l] == GiveUp(t)) ==>
              Refused(run.states[l], t)
  {
    hide Enabled, Apply, PcOf, Standing, Refused;
    assert Taken(run, k) && Taken(run, m - 1);
    DrawStarts(run.states[k], t);
    forall l | k < l < m
      ensures run.actions[l] == Retry(t) || run.actions[l] == GiveUp(t) ==> Refused(run.states[l], t)
    {
      assert Taken(run, l);
      StandsAt(run, k, l, t);
      RefusedStep(run.states[l], run.actions[l], t, Draws(run.actions, t, k, l));
    }
    StandsAt(run, k, m - 1, t);
    RefusedStep(run.states[m - 1], run.actions[m - 1], t, Draws(run.actions, t, k, m - 1));
    AtMost(run, k, m - 1, t);
  }

  lemma MostStep(s: State, a: Action, t: Thread, n: nat)
    requires Enabled(s, a) && Standing(PcOf(s, t), n) && !PcOf(Apply(s, a), t).Idle?
    requires n <= 0xFFFF && (PcOf(s, t).Again? ==> n < 0xFFFF)
    ensures var n' := n + if a == Draw(t) || a == Redraw(t) then 1 else 0;
            n' <= 0xFFFF && (PcOf(Apply(s, a), t).Again? ==> n' < 0xFFFF)
  {
    hide SequenceOf;
  }

  /** No allocation draws more than 65535 sequences. */
  lemma {:induction false} AtMost(run: Run, k: nat, i: nat, t: Thread)
    requires Allocates(run, k, i, t) && !PcOf(run.states[i], t).Idle?
    ensures Draws(run.actions, t, k, i) <= 0xFFFF
    ensures PcOf(run.states[i], t).Again? ==> Draws(run.actions, t, k, i) < 0xFFFF
    decreases i
  {
    hide Enabled, Apply, PcOf, Standing;
    assert Taken(run, i - 1);
    if i == k + 1 {
      DrawStarts(run.states[k], t);
      assert Draws(run.actions, t, k, k) == 0;
    } else {
      AtMost(run, k, i - 1, t);
      StandsAt(run, k, i - 1, t);
      MostStep(run.states[i - 1], run.actions[i - 1], t, Draws(run.actions, t, k, i - 1));
    }
  }

  // -------------------------------------------------------------------- Consume

  /** Where a thread stands that consumes this response for the call it found. */
  predicate Consuming(pc: Pc, call: CallId, sequence: uint16, raw: Raw) {
    pc == Found(call, sequence, raw) || pc == Won(call, sequence, raw) || pc == Removed(call, sequence, raw)
  }

  lemma ConsumingStep(s: State, a: Action, t: Thread, call: CallId, sequence: uint16, raw: Raw)
    requires Inv(s) && Enabled(s, a) && Consuming(PcOf(s, t), call, sequence, raw)
    ensures var pc, s' := PcOf(s, t), Apply(s, a);
            var pc' := PcOf(s', t);
            || (pc' == pc && a != Win(t) && a != Remove(t))
            || (pc.Found? && pc'.Won? && a == Win(t) && Consuming(pc', call, sequence, raw) && !s.calls[call].consumed)
            || (pc.Won? && pc'.Removed? && a == Remove(t) && Consuming(pc', call, sequence, raw)
                && sequence !in s'.entries)
            || (pc'.Idle? && a == Lose(t) && pc.Found? && s.calls[call].consumed)
            || (pc'.Idle? && a == Send(t) && pc.Removed? && s'.calls[call].channel == [raw])
  {
    hide SequenceOf, Unusable;
    assert ThreadOk(s, PcOf(s, t));
  }

  lemma FoundStarts(s: State, t: Thread, sequence: uint16, raw: Raw)
    requires Enabled(s, Get(t, sequence, raw))
    ensures sequence in s.entries
    ensures PcOf(Apply(s, Get(t, sequence, raw)), t) == Found(s.entries[sequence], sequence, raw)
  {
  }

  /** The thread is consuming since step `k`. */
  ghost predicate Consumes(run: Run, k: nat, i: nat, t: Thread, sequence: uint16, raw: Raw) {
    && IsRun(run) && k < i < |run.states| && run.actions[k] == Get(t, sequence, raw)
    && sequence in run.states[k].entries
    && forall l :: k < l < i ==> !PcOf(run.states[l], t).Idle?
  }

  lemma {:induction false} ConsumesAt(run: Run, k: nat, i: nat, t: Thread, sequence: uint16, raw: Raw)
    requires Consumes(run, k, i, t, sequence, raw) && !PcOf(run.states[i], t).Idle?
    ensures Consuming(PcOf(run.states[i], t), run.states[k].entries[sequence], sequence, raw)
    ensures PcOf(run.states[i], t).Won? || PcOf(run.states[i], t).Removed? ==>
              exists l :: k < l < i && WinsAt(run, l, t, run.states[k].entries[sequence])
    decreases i
  {
    hide Enabled, Apply, PcOf, Inv, WinsAt;
    var call := run.states[k].entries[sequence];
    assert Taken(run, i - 1);
    if i == k + 1 {
      FoundStarts(run.states[k], t, sequence, raw);
    } else {
      ConsumesAt(run, k, i - 1, t, sequence, raw);
      InvAlong(run, i - 1);
      ConsumingStep(run.states[i - 1], run.actions[i - 1], t, call, sequence, raw);
      FoundExists(run.states[i - 1], t, call, sequence, raw);
      if run.actions[i - 1] == Win(t) {
        FoundIsOurs(PcOf(run.states[i - 1], t), call, sequence, raw);
        WonAt(run, i - 1, t, call);
      }
    }
  }

  lemma FoundIsOurs(pc: Pc, call: CallId, sequence: uint16, raw: Raw)
    requires Consuming(pc, call, sequence, raw)
    ensures pc.Found? || pc.Won? || pc.Removed?
    ensures pc.call == call
  {
  }

  /** At this step the thread swaps the call's flag, which nobody had before. */
  predicate WinsAt(run: Run, l: nat, t: Thread, call: CallId) {
    && l < |run.actions| && l < |run.states| && run.actions[l] == Win(t)
    && call in run.states[l].calls && !run.states[l].calls[call].consumed
  }

  lemma WonAt(run: Run, l: nat, t: Thread, call: CallId)
    requires IsRun(run) && l < |run.actions| && run.actions[l] == Win(t)
    requires PcOf(run.states[l], t).Found? && PcOf(run.states[l], t).call == call && call in run.states[l].calls
    ensures WinsAt(run, l, t, call)
  {
    assert Taken(run, l);
  }

  /**
   How a consumption ends: it put its response into the channel of the call it had found, having been the one to
   swap that call's flag; or it was refused, because the flag was set.
   */
  lemma ConsumeOutcome(run: Run, k: nat, m: nat, t: Thread, sequence: uint16, raw: Raw)
    requires Consumes(run, k, m, t, sequence, raw) && PcOf(run.states[m], t).Idle?
    ensures var call := run.states[k].entries[sequence];
            && call in run.states[m - 1].calls && call in run.states[m].calls
            && if run.actions[m - 1] == Lose(t) then run.states[m - 1].calls[call].consumed
               else
                 && run.actions[m - 1] == Send(t) && run.states[m].calls[call].channel == [raw]
                 && exists l :: k < l < m && WinsAt(run, l, t, call)
  {
    hide Enabled, Apply, PcOf, Inv, WinsAt;
    var call := run.states[k].entries[sequence];
    assert Taken(run, k) && Taken(run, m - 1);
    FoundStarts(run.states[k], t, sequence, raw);
    ConsumesAt(run, k, m - 1, t, sequence, raw);
    InvAlong(run, m - 1);
    InvAlong(run, m);
    ConsumingStep(run.states[m - 1], run.actions[m - 1], t, call, sequence, raw);
    FoundExists(run.states[m - 1], t, call, sequence, raw);
    CallsGrow(run, m - 1, m);
  }

  lemma FoundExists(s: State, t: Thread, call: CallId, sequence: uint16, raw: Raw)
    requires Inv(s) && Consuming(PcOf(s, t), call, sequence, raw)
    ensures call in s.calls
  {
    assert ThreadOk(s, PcOf(s, t));
  }

  /** How many of the steps up to `i` try the swap of this call. */
  ghost function Swaps(run: Run, call: CallId, i: nat): nat
    requires i <= |run.actions| && i <= |run.states|
  {
    if i == 0 then 0
    else Swaps(run, call, i - 1) + if TriesSwap(run.states[i - 1], run.actions[i - 1], call) then 1 else 0
  }

  predicate TriesSwap(s: State, a: Action, call: CallId) {
    (a.Win? || a.Lose?) && PcOf(s, a.t).Found? && PcOf(s, a.t).call == call
  }

  lemma SwapStep(s: State, a: Action, call: CallId)
    requires Inv(s) && Enabled(s, a)
    ensures var tries := if call in s.calls then s.calls[call].tries else 0;
            call in Apply(s, a).calls ==>
              Apply(s, a).calls[call].tries == tries + if TriesSwap(s, a, call) then 1 else 0
    ensures call !in Apply(s, a).calls ==> !TriesSwap(s, a, call)
  {
    hide SequenceOf, Unusable;
    if a.Add? {
      assert ThreadOk(s, PcOf(s, a.t));
    }
  }

  /** A call's flag is set exactly once somebody has tried to swap it, over every run. */
  lemma {:induction false} ConsumedExactly(run: Run, i: nat, call: CallId)
    requires IsRun(run) && i < |run.states|
    ensures call in run.states[i].calls ==> run.states[i].calls[call].tries == Swaps(run, call, i)
    ensures call in run.states[i].calls ==> (run.states[i].calls[call].consumed <==> Swaps(run, call, i) > 0)
    ensures call !in run.states[i].calls ==> Swaps(run, call, i) == 0
    decreases i
  {
    hide Inv, Enabled, Apply, TriesSwap;
    if i > 0 {
      ConsumedExactly(run, i - 1, call);
      InvAlong(run, i - 1);
      assert Taken(run, i - 1);
      SwapStep(run.states[i - 1], run.actions[i - 1], call);
      if call in run.states[i - 1].calls {
        CallsGrow(run, i - 1, i);
      }
    }
    InvAlong(run, i);
    ConsumedOk(run.states[i], call);
  }

  lemma ConsumedOk(s: State, call: CallId)
    requires Inv(s)
    ensures call in s.calls ==> (s.calls[call].consumed <==> s.calls[call].tries > 0)
  {
  }

  // ------------------------------------------------------ every call goes to its end

  /** How far a thread is from the end of its call. */
  function Rank(pc: Pc): nat {
    match pc
    case Idle => 0
    case Drawn(_, attempts) => if attempts < 0xFFFF then 2 * (0xFFFF - attempts) + 1 else 1
    case Again(attempts) => if attempts < 0xFFFF then 2 * (0xFFFF - attempts) + 2 else 2
    case Free(_) => 1
    case Found(_, _, _) => 3
    case Won(_, _, _) => 2
    case Removed(_, _, _) => 1
  }

  /** Fewer attempts behind it than it may make. */
  predicate WithinAttempts(pc: Pc) {
    (pc.Drawn? || pc.Again?) ==> pc.attempts < 0xFFFF
  }

  /** Each step of its own brings a call closer to its end, and no other step touches it. */
  lemma CallDescends(s: State, a: Action, t: Thread)
    requires Enabled(s, a) && !PcOf(s, t).Idle? && WithinAttempts(PcOf(s, t))
    ensures var pc, pc' := PcOf(s, t), PcOf(Apply(s, a), t);
            WithinAttempts(pc') && if Mover(a) == Some(t) then Rank(pc') < Rank(pc) else pc' == pc
  {
    hide SequenceOf;
  }

  lemma WithinAtFirst(s: State, a: Action, t: Thread)
    requires Enabled(s, a) && PcOf(s, t).Idle?
    ensures WithinAttempts(PcOf(Apply(s, a), t))
  {
    hide SequenceOf, Unusable;
  }

  lemma {:induction false} WithinAlong(run: Run, i: nat, t: Thread)
    requires IsRun(run) && i < |run.states|
    ensures WithinAttempts(PcOf(run.states[i], t))
    decreases i
  {
    hide Enabled, Apply;
    if i > 0 {
      WithinAlong(run, i - 1, t);
      assert Taken(run, i - 1);
      if PcOf(run.states[i - 1], t).Idle? {
        WithinAtFirst(run.states[i - 1], run.actions[i - 1], t);
      } else {
        CallDescends(run.states[i - 1], run.actions[i - 1], t);
      }
    }
  }

  /** How many steps the thread takes from `i` up to `j`. */
  function OwnSteps(actions: seq<Action>, t: Thread, i: nat, j: nat): nat
    requires i <= j <= |actions|
  {
    if i == j then 0 else OwnSteps(actions, t, i, j - 1) + if Mover(actions[j - 1]) == Some(t) then 1 else 0
  }

  /** A call ends after at most as many steps of its own as its rank says, at most 131071, whatever interleaves. */
  lemma {:induction false} CallBounded(run: Run, i: nat, j: nat, t: Thread)
    requires IsRun(run) && i <= j < |run.states| && forall l :: i <= l < j ==> !PcOf(run.states[l], t).Idle?
    ensures OwnSteps(run.actions, t, i, j) + Rank(PcOf(run.states[j], t)) <= Rank(PcOf(run.states[i], t))
    decreases j
  {
    hide Enabled, Apply, PcOf, Rank;
    if i < j {
      CallBounded(run, i, j - 1, t);
      WithinAlong(run, j - 1, t);
      assert Taken(run, j - 1);
      CallDescends(run.states[j - 1], run.actions[j - 1], t);
    }
  }

  /** The next step of a call in progress. */
  function NextOfCall(s: State, t: Thread): Action {
    match PcOf(s, t)
    case Drawn(draw, attempts) =>
      if !Unusable(s, draw) then Miss(t) else if attempts + 1 < MAX_ATTEMPTS then Retry(t) else GiveUp(t)
    case Again(_) => Redraw(t)
    case Free(_) => Add(t)
    case Found(call, _, _) => if call in s.calls && s.calls[call].consumed then Lose(t) else Win(t)
    case Won(_, _, _) => Remove(t)
    case Removed(_, _, _) => Send(t)
    case Idle => Draw(t)
  }

  /** No call is ever stuck: not even the send blocks, and only a full table has to drop an entry before an add. */
  lemma CallNeverStuck(s: State, t: Thread)
    requires Inv(s) && !PcOf(s, t).Idle?
    ensures var a := NextOfCall(s, t);
            && Mover(a) == Some(t)
            && if PcOf(s, t).Free? then SequenceOf(PcOf(s, t).draw) in s.entries || |s.entries| < 1024 ==> Enabled(s, a)
               else Enabled(s, a)
  {
    hide SequenceOf;
    assert ThreadOk(s, PcOf(s, t));
    var pc := PcOf(s, t);
    if pc.Removed? {
      assert CallOk(s.calls[pc.call]);
    }
  }
}
