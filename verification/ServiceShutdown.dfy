/**
 Why the service's `Close` returns: once the context is cancelled every party that is waited for moves on,
 and their steps are bounded. Stated over unbounded executions under weak fairness.
 */
module ServiceShutdown {
  import opened Wrappers
  import opened Service
  import opened ServiceProgress
  import Link

  // ------------------------------------------------------------- the measure

  function CloserRank(pc: CloserPc): nat {
    match pc
    case Swapping => 6
    case Cancelling => 5
    case Loading => 4
    case Committing(_) => 3
    case Closing(_) => 2
    case Waiting => 1
    case _ => 0
  }

  function CloseMeasure(s: State, t: Thread): nat {
    Measure(s) + CloserRank(CloserOf(s, t))
  }

  predicate InClose(pc: CloserPc) {
    !pc.Idle? && !pc.Returned?
  }

  /** A step that brings a pending `Close` of `t` nearer: its own, or one that brings `run` on. */
  predicate HelpsClose(s: State, a: Action, t: Thread) {
    CloserIn(a) == Some(t) || Helps(s, a)
  }

  /** A pending `Close` moves by its own steps alone, each of them down. */
  lemma CloserDescends(s: State, a: Action, t: Thread)
    requires Enabled(s, a) && InClose(CloserOf(s, t))
    ensures var pc, pc' := CloserOf(s, t), CloserOf(Apply(s, a), t);
            if CloserIn(a) == Some(t) then CloserRank(pc') < CloserRank(pc) && (InClose(pc') || pc'.Returned?)
            else pc' == pc
  {
    hide Accepted, Link.Enabled, Link.Apply, Serving;
  }

  lemma CloseMeasureStep(s: State, a: Action, t: Thread)
    requires Inv(s) && Enabled(s, a) && s.cancelled && InClose(CloserOf(s, t))
    ensures var s' := Apply(s, a);
            && s'.cancelled && (InClose(CloserOf(s', t)) || (CloserOf(s', t).Returned? && HelpsClose(s, a, t)))
            && CloseMeasure(s', t) + (if HelpsClose(s, a, t) then 1 else 0) <= CloseMeasure(s, t)
  {
    hide Inv, Apply, Measure, CloserRank, InClose, CloserOf, Helps, Link.Enabled, Accepted, Serving;
    assert !a.StartOpen?;
    hide Enabled;
    CancelledStays(s, a);
    CloserDescends(s, a, t);
    MeasureStep(s, a);
  }

  function HelpingSteps(run: Run, t: Thread, i: nat, j: nat): nat
    requires i <= j <= |run.actions| && |run.actions| <= |run.states|
  {
    if i == j then 0
    else HelpingSteps(run, t, i, j - 1) + if HelpsClose(run.states[j - 1], run.actions[j - 1], t) then 1 else 0
  }

  /**
   Once the context is cancelled, a pending `Close` is helped only a bounded number of times however much else
   interleaves, even if one more session comes up in between.
   */
  lemma {:induction false} CloseBounded(run: Run, i: nat, j: nat, t: Thread)
    requires IsRun(run) && i <= j < |run.states| && run.states[i].cancelled
    requires forall k :: i <= k < j ==> InClose(CloserOf(run.states[k], t))
    ensures run.states[j].cancelled
    ensures HelpingSteps(run, t, i, j) + CloseMeasure(run.states[j], t) <= CloseMeasure(run.states[i], t)
    decreases j
  {
    hide Inv, CloseMeasure, HelpsClose, InClose, CloserOf, Enabled, Apply;
    if i < j {
      CloseBounded(run, i, j - 1, t);
      InvAlong(run, j - 1);
      assert Taken(run, j - 1);
      CloseMeasureStep(run.states[j - 1], run.actions[j - 1], t);
    }
  }

  // ----------------------------------------------------------- who moves next

  /** A step the pending `Close` of `t` waits for. */
  function NextHelping(s: State, t: Thread): Action {
    match CloserOf(s, t)
    case Swapping => SwapClosed(t)
    case Cancelling => Cancel(t)
    case Loading => LoadActive(t)
    case Committing(_) => CommitHandle(t)
    case Closing(_) => CloseHandle(t)
    case _ =>
      if s.pc.Exited? then AwaitStopped(t)
      else if s.cancelled then NextOfRun(s)
      else if s.closedBy.Some? then Cancel(s.closedBy.value)
      else AwaitStopped(t)
  }

  /**
   No pending `Close` is ever stuck: a step that helps it is enabled, or the winning `Close` can cancel the
   context, or the read loop of a session whose handle is closed can route the response it holds.
   */
  lemma CloseNeverStuck(s: State, t: Thread)
    requires Inv(s) && InClose(CloserOf(s, t))
    ensures var a := NextHelping(s, t);
            && Enabled(s, a)
            && (a.LinkMoves? ==> WaitsForReader(s, a.id) && a.step == NextOfReader(s.connections[a.id].link))
            && (HelpsClose(s, a, t) || (a.Cancel? && !s.cancelled) || (a.LinkMoves? && a.step.Consume?))
  {
    hide ConnectionsOk, LinksOk, CurrentOk, PointersOk, HandlesOk, NextOfRun;
    assert CloserOk(s, t);
    if CloserOf(s, t).Waiting? && !s.pc.Exited? && s.cancelled {
      RunNeverStuck(s);
    }
  }

  // --------------------------------------------------- before the cancellation

  /** Before the context is cancelled a pending `Close` swaps, or cancels, or waits for the one who does. */
  lemma StandsBeforeCancel(s: State, t: Thread)
    requires Inv(s) && !s.cancelled && InClose(CloserOf(s, t))
    ensures s.closedBy.None? ==> CloserOf(s, t).Swapping?
    ensures s.closedBy.Some? ==> CloserOf(s, s.closedBy.value).Cancelling?
  {
    hide ConnectionsOk, LinksOk, CurrentOk, HandlesOk;
    assert CloserOk(s, t);
  }

  lemma StepBeforeCancel(s: State, a: Action, t: Thread)
    requires Inv(s) && !s.cancelled && InClose(CloserOf(s, t)) && Enabled(s, a)
    ensures InClose(CloserOf(Apply(s, a), t))
    ensures s.closedBy.Some? ==> Apply(s, a).closedBy == s.closedBy
  {
    hide ConnectionsOk, LinksOk, CurrentOk, HandlesOk, ClosersOk, Link.Apply, Link.Enabled, Accepted, Serving;
  }

  lemma SwapWins(s: State, a: Action, t: Thread)
    requires CloserOf(s, t).Swapping? && Enabled(s, a) && Owner(a) == Some(Closer(t))
    ensures Apply(s, a).closedBy.Some?
  {
    hide Link.Apply, Link.Enabled, Accepted, Serving;
    assert a == SwapClosed(t);
  }

  lemma WinnersStep(s: State, a: Action, t: Thread)
    requires CloserOf(s, t).Cancelling? && Enabled(s, a) && Owner(a) == Some(Closer(t))
    ensures Apply(s, a).cancelled
  {
    hide Link.Enabled, Accepted, Serving, Link.Apply;
    assert a == Cancel(t);
  }

  lemma BeforeCancel(e: Execution, k: nat, t: Thread)
    requires IsExecution(e) && !e.states(k).cancelled && InClose(CloserOf(e.states(k), t))
    ensures var s, s' := e.states(k), e.states(k + 1);
            && InClose(CloserOf(s', t))
            && (s.closedBy.None? ==>
                  CanMove(s, Closer(t)) && (MovesAt(e, k, Closer(t)) ==> s'.closedBy.Some?))
            && (s.closedBy.Some? ==>
                  && s'.closedBy == s.closedBy
                  && CanMove(s, Closer(s.closedBy.value))
                  && (MovesAt(e, k, Closer(s.closedBy.value)) ==> s'.cancelled))
  {
    hide Inv, Apply, InClose, CloserOf;
    InvAt(e, k);
    assert Follows(e, k);
    var s := e.states(k);
    StandsBeforeCancel(s, t);
    if s.closedBy.None? {
      assert Owner(SwapClosed(t)) == Some(Closer(t)) && Pressing(s, SwapClosed(t));
    } else {
      var winner := s.closedBy.value;
      assert Owner(Cancel(winner)) == Some(Closer(winner)) && Pressing(s, Cancel(winner));
    }
    hide Enabled, Owner, CanMove, Pressing;
    if e.actions(k).Some? {
      var a := e.actions(k).value;
      StepBeforeCancel(s, a, t);
      if s.closedBy.None? && MovesAt(e, k, Closer(t)) {
        SwapWins(s, a, t);
      }
      if s.closedBy.Some? && MovesAt(e, k, Closer(s.closedBy.value)) {
        WinnersStep(s, a, s.closedBy.value);
      }
    }
  }

  lemma SomebodyWins(e: Execution, i: nat, t: Thread) returns (j: nat)
    requires IsExecution(e) && Fair(e) && InClose(CloserOf(e.states(i), t))
    ensures i <= j && InClose(CloserOf(e.states(j), t)) && (e.states(j).cancelled || e.states(j).closedBy.Some?)
  {
    hide InClose, CanMove, MovesAt, CloserOf, IsExecution;
    assert NotStarved(e, Closer(t), i);
    var end: nat :| i <= end && (!CanMove(e.states(end), Closer(t)) || MovesAt(e, end, Closer(t)));
    j := i;
    while !e.states(j).cancelled && e.states(j).closedBy.None?
      invariant i <= j <= end + 1 && InClose(CloserOf(e.states(j), t))
      invariant j == end + 1 ==> e.states(j).cancelled || e.states(j).closedBy.Some?
      decreases end + 1 - j
    {
      BeforeCancel(e, j, t);
      j := j + 1;
    }
  }

  lemma WinnerCancels(e: Execution, i: nat, t: Thread) returns (j: nat)
    requires IsExecution(e) && Fair(e) && InClose(CloserOf(e.states(i), t)) && e.states(i).closedBy.Some?
    ensures i <= j && InClose(CloserOf(e.states(j), t)) && e.states(j).cancelled
  {
    hide InClose, CanMove, MovesAt, CloserOf, IsExecution;
    var winner := Closer(e.states(i).closedBy.value);
    assert NotStarved(e, winner, i);
    var end: nat :| i <= end && (!CanMove(e.states(end), winner) || MovesAt(e, end, winner));
    j := i;
    while !e.states(j).cancelled
      invariant i <= j <= end + 1 && InClose(CloserOf(e.states(j), t)) && (j <= end || e.states(j).cancelled)
      invariant e.states(j).cancelled || e.states(j).closedBy == e.states(i).closedBy
      decreases end + 1 - j
    {
      BeforeCancel(e, j, t);
      j := j + 1;
    }
  }

  // ---------------------------------------------------- after the cancellation

  /** The next step a `Close` caller makes by itself, at the latest once `run` has exited. */
  function NextOfCloser(s: State, t: Thread): Action {
    match CloserOf(s, t)
    case Swapping => SwapClosed(t)
    case Cancelling => Cancel(t)
    case Loading => LoadActive(t)
    case Committing(_) => CommitHandle(t)
    case Closing(_) => CloseHandle(t)
    case _ => AwaitStopped(t)
  }

  /** It need not wait for `run` any more. */
  predicate Ready(s: State, t: Thread) {
    InClose(CloserOf(s, t)) && (s.pc.Exited? || !CloserOf(s, t).Waiting?)
  }

  lemma ReadyCanMove(s: State, t: Thread)
    requires Inv(s) && Ready(s, t)
    ensures CanMove(s, Closer(t))
  {
    hide ConnectionsOk, LinksOk, CurrentOk, PointersOk, HandlesOk;
    assert CloserOk(s, t);
    var a := NextOfCloser(s, t);
    assert Owner(a) == Some(Closer(t)) && Pressing(s, a);
  }

  lemma ExitedStays(s: State, a: Action)
    requires Enabled(s, a) && s.pc.Exited?
    ensures Apply(s, a).pc.Exited?
  {
    hide Link.Apply, Link.Enabled, Accepted, Serving;
  }

  lemma ReadyMoment(e: Execution, k: nat, t: Thread)
    requires IsExecution(e) && Ready(e.states(k), t)
    ensures CanMove(e.states(k), Closer(t))
    ensures var s, s' := e.states(k), e.states(k + 1);
            && (s.pc.Exited? ==> s'.pc.Exited?) && (s.cancelled ==> s'.cancelled)
            && if MovesAt(e, k, Closer(t)) then
                 (InClose(CloserOf(s', t)) || CloserOf(s', t).Returned?)
                 && CloserRank(CloserOf(s', t)) < CloserRank(CloserOf(s, t))
               else CloserOf(s', t) == CloserOf(s, t)
  {
    hide Inv, Enabled, Apply, CloserRank, CloserOf, CanMove, InClose;
    InvAt(e, k);
    ReadyCanMove(e.states(k), t);
    assert Follows(e, k);
    if e.actions(k).Some? {
      var s, a := e.states(k), e.actions(k).value;
      CloserDescends(s, a, t);
      if s.pc.Exited? {
        ExitedStays(s, a);
      }
      if s.cancelled {
        CancelledStays(s, a);
      }
      if CloserIn(a) == Some(t) && a.CallClose? {
        CallsFromIdle(s, t);
      }
    }
  }

  lemma CallsFromIdle(s: State, t: Thread)
    requires Enabled(s, CallClose(t))
    ensures !InClose(CloserOf(s, t))
  {
  }

  /** A `Close` that need not wait makes its next step. */
  lemma CloserNearer(e: Execution, i: nat, t: Thread) returns (j: nat)
    requires IsExecution(e) && Fair(e) && Ready(e.states(i), t)
    ensures i < j && (InClose(CloserOf(e.states(j), t)) || CloserOf(e.states(j), t).Returned?)
    ensures CloserRank(CloserOf(e.states(j), t)) < CloserRank(CloserOf(e.states(i), t))
    ensures (e.states(i).pc.Exited? ==> e.states(j).pc.Exited?) && (e.states(i).cancelled ==> e.states(j).cancelled)
  {
    hide CanMove, MovesAt, CloserRank, CloserOf, InClose, IsExecution;
    assert NotStarved(e, Closer(t), i);
    var end: nat :| i <= end && (!CanMove(e.states(end), Closer(t)) || MovesAt(e, end, Closer(t)));
    j := i;
    while !MovesAt(e, j, Closer(t))
      invariant i <= j <= end && Ready(e.states(j), t) && CloserOf(e.states(j), t) == CloserOf(e.states(i), t)
      invariant (e.states(i).pc.Exited? ==> e.states(j).pc.Exited?) && (e.states(i).cancelled ==> e.states(j).cancelled)
      decreases end - j
    {
      ReadyMoment(e, j, t);
      j := j + 1;
    }
    ReadyMoment(e, j, t);
    j := j + 1;
  }

  /** Its own steps lead a `Close` to its end, or to waiting for `run`. */
  lemma {:induction false} ComesToWait(e: Execution, i: nat, t: Thread) returns (j: nat)
    requires IsExecution(e) && Fair(e)
    requires InClose(CloserOf(e.states(i), t)) || CloserOf(e.states(i), t).Returned?
    ensures i <= j && (e.states(i).cancelled ==> e.states(j).cancelled)
    ensures e.states(i).pc.Exited? ==> e.states(j).pc.Exited?
    ensures CloserOf(e.states(j), t).Returned? || (CloserOf(e.states(j), t).Waiting? && !e.states(j).pc.Exited?)
    decreases CloserRank(CloserOf(e.states(i), t))
  {
    hide CloserRank, CloserOf, IsExecution, Fair;
    j := i;
    if Ready(e.states(i), t) {
      j := CloserNearer(e, i, t);
      j := ComesToWait(e, j, t);
    }
  }

  /** A `Close` that waits goes on waiting, unless it returns. */
  lemma {:induction false} WaitsUntil(e: Execution, i: nat, j: nat, t: Thread)
    requires IsExecution(e) && i <= j && (CloserOf(e.states(i), t).Waiting? || CloserOf(e.states(i), t).Returned?)
    ensures CloserOf(e.states(j), t).Waiting? || CloserOf(e.states(j), t).Returned?
    decreases j
  {
    hide CloserOf, Enabled, Apply;
    if i < j {
      WaitsUntil(e, i, j - 1, t);
      assert Follows(e, j - 1);
      if e.actions(j - 1).Some? {
        WaitingStep(e.states(j - 1), e.actions(j - 1).value, t);
      }
    }
  }

  lemma WaitingStep(s: State, a: Action, t: Thread)
    requires Enabled(s, a) && (CloserOf(s, t).Waiting? || CloserOf(s, t).Returned?)
    ensures CloserOf(Apply(s, a), t).Waiting? || CloserOf(Apply(s, a), t).Returned?
  {
    hide Link.Apply, Link.Enabled, Accepted, Serving;
  }

  /**
   Every `Close` returns: in every fair execution in which a closed transport hands out only finitely many
   reports more, a `Close` that is pending at any moment has returned at a later one.
   */
  lemma EveryCloseReturns(e: Execution, i: nat, t: Thread) returns (j: nat)
    requires IsExecution(e) && Fair(e) && ReportsCease(e) && InClose(CloserOf(e.states(i), t))
    ensures i <= j && CloserOf(e.states(j), t).Returned?
  {
    hide CloserOf, IsExecution, Fair, ReportsCease;
    j := SomebodyWins(e, i, t);
    if !e.states(j).cancelled {
      j := WinnerCancels(e, j, t);
    }
    j := ComesToWait(e, j, t);
    if !CloserOf(e.states(j), t).Returned? {
      var k := j;
      j := ExitsOnceCancelled(e, k);
      WaitsUntil(e, k, j, t);
      j := ComesToWait(e, j, t);
    }
  }
}
