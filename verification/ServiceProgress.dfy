/**
 How the supervisor gets on: a measure that every step of `run` lowers except opening, whatever the other
 parties do, and what follows over unbounded executions under weak fairness: it never stops trying, and once the
 context is cancelled it exits.
 */
module ServiceProgress {
  import opened Wrappers
  import opened Service
  import Caller
  import CallerRaces
  import Session
  import Link

  // ------------------------------------------------------------- the measure

  /** How far the verifier is from having a call. */
  function AllocateRank(link: Link.State): nat {
    match CallerRaces.PcOf(link.calls, Link.VERIFIER)
    case Drawn(_, _) => 2
    case Free(_) => 1
    case _ => 3
  }

  /** How far `run` is from its next attempt to open a device, or from its exit. */
  function Rank(s: State): nat {
    match s.pc
    case Exited => 0
    case Top => 1
    case RetryWait => 2
    case Retry => 3
    case Draining(_, why) => if why.Cancelled? then 10 else 4
    case Closing(_, why) => if why.Cancelled? then 11 else 5
    case Committing(_, why) => if why.Cancelled? then 12 else 6
    case StoreError(_) => 7
    case DropInfo(_) => 8
    case DropActive(_) => 9
    case Online(_) => 13
    case StoreActive(_) => 14
    case ClearError(_) => 15
    case StoreInfo(_) => 16
    case Judging(_) => 17
    case Awaiting(_) => 18
    case Asking(_) => 19
    case Registering(id) => 20 + (if id < |s.connections| then AllocateRank(s.connections[id].link) else 0)
    case Opening => 24
  }

  function LoopRank(pc: Session.LoopPc): nat {
    match pc
    case Reading => 4
    case Clearing => 3
    case Failing => 2
    case Closing => 1
    case Over => 0
  }

  function HandleRank(handle: Handle): nat {
    match handle
    case Open => 2
    case Committed(_) => 1
    case Closed => 0
  }

  /** What the current session and its handle still have before them. */
  function SessionRank(s: State): nat {
    if Serving(s) then
      LoopRank(s.connections[Current(s.pc).value].link.loop.pc) + HandleRank(s.connections[Current(s.pc).value].handle)
    else 0
  }

  function Measure(s: State): nat {
    8 * Rank(s) + SessionRank(s)
  }

  /**
   A step that brings `run` on: its own, one of a read loop winding up, or the closing of the handle of the
   current session by the one who has committed to it.
   */
  predicate Helps(s: State, a: Action) {
    || IsSupervisorAction(a)
    || (a.LinkMoves? && a.step.WindUp?)
    || (a.CloseHandle? && CloserOf(s, a.t).Closing? && Current(s.pc) == Some(CloserOf(s, a.t).id))
  }

  lemma SessionRankBound(s: State)
    ensures SessionRank(s) <= 6
  {
  }

  /** The first call is drawn once: allocating takes three steps. */
  lemma AllocateDescends(link: Link.State)
    requires Link.Ok(link) && link.call.None?
    ensures Link.Enabled(link, Link.Allocate)
    ensures var link' := Link.Apply(link, Link.Allocate);
            link'.call.Some? || AllocateRank(link') < AllocateRank(link)
  {
    Caller.SequenceIgnoresWrap(1);
    hide Caller.SequenceOf, CallerRaces.CallsOk, CallerRaces.ThreadsOk, Link.TracedOk, Link.ThreadsOk;
  }

  lemma AllocationDescends(s: State)
    requires CurrentOk(s) && LinksOk(s) && Enabled(s, DoAllocate)
    ensures Rank(Apply(s, DoAllocate)) < Rank(s)
  {
    hide Link.Apply, Link.Enabled, Link.Ok, Accepted, AllocateRank;
    AllocateDescends(s.connections[s.pc.id].link);
  }

  lemma OtherwiseDescends(s: State, a: Action)
    requires Enabled(s, a) && IsSupervisorAction(a) && !a.StartOpen? && !a.DoAllocate?
    ensures Rank(Apply(s, a)) < Rank(s)
  {
    hide Link.Apply, Link.Enabled, Accepted, AllocateRank, SetHandle;
    if a.OpenSucceeds? {
      FreshRank();
    }
  }

  /** Each of its steps but opening brings `run` closer to its next attempt, or to its exit. */
  lemma SupervisorDescends(s: State, a: Action)
    requires CurrentOk(s) && LinksOk(s) && Enabled(s, a) && IsSupervisorAction(a) && !a.StartOpen?
    ensures var s' := Apply(s, a);
            s'.cancelled == s.cancelled && s'.closers == s.closers && Rank(s') < Rank(s)
  {
    hide Apply, Enabled, Rank, IsSupervisorAction;
    SupervisedShared(s, a);
    if a.DoAllocate? {
      AllocationDescends(s);
    } else {
      OtherwiseDescends(s, a);
    }
  }

  lemma FreshRank()
    ensures AllocateRank(Link.STARTED) == 3
  {
  }

  /** Nobody else changes how far `run` is. */
  lemma OthersKeepRank(s: State, a: Action)
    requires LinksOk(s) && Enabled(s, a) && !IsSupervisorAction(a)
    ensures Rank(Apply(s, a)) == Rank(s)
  {
    hide Link.Apply, Link.Enabled, Link.Ok, Accepted, Serving, AllocateRank;
    if a.LinkMoves? {
      VerifierStays(s.connections[a.id].link, a.step);
    }
  }

  lemma VerifierStays(link: Link.State, step: Link.Action)
    requires Link.Ok(link) && Link.Enabled(link, step) && !Link.IsVerifierAction(step)
    ensures AllocateRank(Link.Apply(link, step)) == AllocateRank(link)
  {
    hide Link.Apply, Link.Enabled, Link.TracedOk, Link.ThreadsOk, Link.VerifierOk, CallerRaces.Inv;
    Link.OthersAdd(link, step);
  }

  /** The read loops of older connections are over, so only the current one can wind up. */
  lemma WindsUpCurrent(s: State, a: Action)
    requires ConnectionsOk(s) && LinksOk(s) && Enabled(s, a) && a.LinkMoves? && a.step.WindUp?
    ensures Current(s.pc) == Some(a.id)
  {
    assert Link.Ok(s.connections[a.id].link);
  }

  lemma ClosedStays(s: State, b: Action, id: Id)
    requires id < |s.connections| && s.connections[id].handle.Closed? && Enabled(s, b) && !IsSupervisorAction(b)
    ensures id < |Apply(s, b).connections| && Apply(s, b).connections[id].handle.Closed?
  {
    hide Link.Apply, Link.Enabled, Accepted, Serving;
  }

  lemma LinkStays(s: State, b: Action, id: Id)
    requires id < |s.connections| && Enabled(s, b) && !IsSupervisorAction(b) && !(b.LinkMoves? && b.id == id)
    ensures id < |Apply(s, b).connections| && Apply(s, b).connections[id].link == s.connections[id].link
  {
    hide Link.Apply, Link.Enabled, Accepted, Serving;
  }

  lemma LinkSteps(s: State, b: Action)
    requires Enabled(s, b) && b.LinkMoves?
    ensures b.id < |s.connections| && Link.Enabled(s.connections[b.id].link, b.step)
    ensures b.id < |Apply(s, b).connections|
    ensures Apply(s, b).connections[b.id].link == Link.Apply(s.connections[b.id].link, b.step)
  {
    hide Link.Apply, Link.Enabled, Accepted, Serving;
  }

  /** Receiving and routing leave a read loop where it is; each step of winding up brings it closer to its end. */
  lemma LoopDescends(link: Link.State, step: Link.Action)
    requires Link.Enabled(link, step) && !Link.IsVerifierAction(step)
    ensures LoopRank(Link.Apply(link, step).loop.pc) + (if step.WindUp? then 1 else 0) <= LoopRank(link.loop.pc)
  {
    hide Link.ConsumeStep, Link.AllocateStep, Link.Free, CallerRaces.Apply, CallerRaces.Enabled, Session.Latest;
  }

  lemma LinkRank(s: State, a: Action)
    requires ConnectionsOk(s) && LinksOk(s) && Enabled(s, a) && a.LinkMoves?
    ensures SessionRank(Apply(s, a)) + (if a.step.WindUp? then 1 else 0) <= SessionRank(s)
  {
    hide Accepted, Link.Apply, Link.Enabled, LoopRank, HandleRank, LinksOk;
    LoopDescends(s.connections[a.id].link, a.step);
    if a.step.WindUp? {
      WindsUpCurrent(s, a);
    }
  }

  /** Committing to a handle and closing it count down, whoever does it. */
  lemma TouchRank(s: State, a: Action)
    requires HandlesOk(s) && Enabled(s, a) && (a.CommitHandle? || a.CloseHandle? || a.WriterCloses?)
    ensures SessionRank(Apply(s, a))
            + (if a.CloseHandle? && Current(s.pc) == Some(CloserOf(s, a.t).id) then 1 else 0) <= SessionRank(s)
  {
    hide Accepted, Link.Enabled, Link.Apply, LoopRank;
    if a.CloseHandle? {
      assert HandleOk(s, CloserOf(s, a.t).id);
    }
  }

  lemma UntouchedRank(s: State, a: Action)
    requires Enabled(s, a) && !IsSupervisorAction(a) && !a.LinkMoves?
    requires !a.CommitHandle? && !a.CloseHandle? && !a.WriterCloses?
    ensures SessionRank(Apply(s, a)) == SessionRank(s)
  {
    hide Accepted, Link.Enabled, Link.Apply, LoopRank, HandleRank;
  }

  lemma HandleRankStep(s: State, a: Action)
    requires HandlesOk(s) && Enabled(s, a) && !IsSupervisorAction(a) && !a.LinkMoves?
    ensures SessionRank(Apply(s, a))
            + (if a.CloseHandle? && Current(s.pc) == Some(CloserOf(s, a.t).id) then 1 else 0) <= SessionRank(s)
  {
    hide Apply, Enabled, IsSupervisorAction, SessionRank;
    if a.CommitHandle? || a.CloseHandle? || a.WriterCloses? {
      TouchRank(s, a);
    } else {
      UntouchedRank(s, a);
    }
  }

  /** Short of an attempt to open, no step of anybody takes `run` back, and those that help bring it on. */
  lemma MeasureStep(s: State, a: Action)
    requires Inv(s) && Enabled(s, a) && !a.StartOpen?
    ensures Measure(Apply(s, a)) + (if Helps(s, a) then 1 else 0) <= Measure(s)
  {
    hide ConnectionsOk, LinksOk, CurrentOk, PointersOk, HandlesOk, ClosersOk, Enabled, Apply, SessionRank, Rank,
         CloserOf, IsSupervisorAction;
    if IsSupervisorAction(a) {
      SupervisorDescends(s, a);
      SessionRankBound(Apply(s, a));
      SupervisorIsNoCloser(a);
    } else {
      OthersKeepRank(s, a);
      if a.LinkMoves? {
        LinkRank(s, a);
      } else {
        HandleRankStep(s, a);
      }
    }
  }

  lemma SupervisorIsNoCloser(a: Action)
    requires IsSupervisorAction(a)
    ensures CloserIn(a).None?
  {
  }

  // ----------------------------------------------------------- who moves next

  /** The next step of a read loop whose transport fails its read, once it has routed what it received. */
  function NextOfReader(link: Link.State): Link.Action {
    if !Link.Free(link) then Link.Consume
    else Link.WindUp(match link.loop.pc
                     case Reading => Session.Break
                     case Clearing => Session.ClearCard
                     case Failing => Session.StoreFailure
                     case Closing => Session.CloseDone
                     case Over => Session.CloseDone)
  }

  /** `run` waits for the read loop of this session, and its handle is closed. */
  predicate WaitsForReader(s: State, id: Id) {
    && s.pc.Draining? && s.pc.id == id && id < |s.connections|
    && s.connections[id].handle.Closed? && !Ended(s.connections[id])
  }

  /** The session `run` serves is online, and neither has it ended nor is the context cancelled: `run` rests. */
  predicate Resting(s: State) {
    s.pc.Online? && !s.cancelled && (Serving(s) ==> !Ended(s.connections[s.pc.id]))
  }

  /** `run` has not returned and does not rest. */
  predicate Going(s: State) {
    !s.pc.Exited? && !Resting(s)
  }

  /** What `run` does next by itself, or what it waits for. */
  function NextOfRun(s: State): Action {
    match s.pc
    case Top => if s.cancelled then SeeCancelledTop else StartOpen
    case Opening => OpenFails
    case Judging(id) => if id < |s.connections| && Accepted(s.connections[id].link) then VerifySucceeds else VerifyFails
    case StoreInfo(_) => DoStoreInfo
    case ClearError(_) => DoClearError
    case StoreActive(_) => DoStoreActive
    case Online(_) => if s.cancelled then SeeCancelled else SeeEnded
    case Committing(_, _) => DoCommit
    case Closing(_, _) => DoClose
    case Draining(id, _) =>
      if id >= |s.connections| || Ended(s.connections[id]) then SeeDrained
      else if s.connections[id].handle.Committed? && s.connections[id].handle.holder.Closer? then
        CloseHandle(s.connections[id].handle.holder.t)
      else
        LinkMoves(id, NextOfReader(s.connections[id].link))
    case DropActive(_) => DoDropActive
    case DropInfo(_) => DoDropInfo
    case StoreError(_) => DoStoreError
    case Retry => if s.cancelled then RetryCancelled else RetryWaits
    case RetryWait => TimerFires
    case Exited => SeeCancelledTop
    case _ => VerifyFails
  }

  lemma ReaderGoesOn(s: State, id: Id)
    requires LinksOk(s) && WaitsForReader(s, id)
    ensures Enabled(s, LinkMoves(id, NextOfReader(s.connections[id].link)))
  {
    hide Link.Ok, Link.Enabled, NextOfReader;
    ReaderCanMove(s.connections[id].link);
  }

  /** Whatever a read loop is at, it has a next step until it is over. */
  lemma ReaderCanMove(link: Link.State)
    requires Link.Ok(link) && !link.loop.done
    ensures Link.Enabled(link, NextOfReader(link)) && !Link.IsVerifierAction(NextOfReader(link))
  {
    hide Link.TracedOk, Link.VerifierOk, Link.ThreadsOk, CallerRaces.Inv, Link.ConsumeStep, CallerRaces.Enabled;
    if !Link.Free(link) {
      Link.RoutingGoesOn(link);
    }
  }

  /**
   While it neither rests nor has returned, `run` can move, or the one it waits for can: who committed to the
   handle, or the read loop.
   */
  lemma RunNeverStuck(s: State)
    requires Inv(s) && Going(s)
    ensures var a := NextOfRun(s);
            && Enabled(s, a)
            && (IsSupervisorAction(a)
                || (a.CloseHandle? && CloserOf(s, a.t).Closing? && Current(s.pc) == Some(CloserOf(s, a.t).id))
                || (a.LinkMoves? && WaitsForReader(s, a.id) && a.step == NextOfReader(s.connections[a.id].link)))
  {
    hide Link.Ok, Link.Enabled, Session.SaysVersion01, ClosersOk;
    if s.pc.Draining? && !Ended(s.connections[s.pc.id]) {
      var id := s.pc.id;
      assert HandleOk(s, id);
      if s.connections[id].handle.Committed? {
        assert CloserOf(s, s.connections[id].handle.holder.t) == CloserPc.Closing(id);
      } else {
        ReaderGoesOn(s, id);
      }
    }
  }

  // ------------------------------------------------------ unbounded executions

  /** An unbounded execution: at each moment one step, or none. */
  datatype Execution = Execution(states: nat -> State, actions: nat -> Option<Action>)

  ghost predicate Follows(e: Execution, i: nat) {
    match e.actions(i)
    case None => e.states(i + 1) == e.states(i)
    case Some(a) => Enabled(e.states(i), a) && e.states(i + 1) == Apply(e.states(i), a)
  }

  ghost predicate IsExecution(e: Execution) {
    e.states(0) == START && forall i: nat :: Follows(e, i)
  }

  /** Whose step it is; calling `Close`, a failing writer and an expiring call are the outside's. */
  function Owner(a: Action): Option<Party> {
    if CloserIn(a).Some? then (if a.CallClose? then None else Some(Closer(CloserIn(a).value)))
    else if a.WriterCloses? then None
    else if a.LinkMoves? then (if a.step.Expire? then None else Some(Reader(a.id)))
    else Some(Supervisor)
  }

  /**
   A step its party cannot put off for ever. A read loop cannot wait for a report that need not come, but
   once the handle is closed its read returns.
   */
  predicate Pressing(s: State, a: Action) {
    && Enabled(s, a)
    && (a.LinkMoves? ==>
          && !a.step.Receive?
          && (a.step == Link.WindUp(Session.Break) ==> s.connections[a.id].handle.Closed?))
  }

  ghost predicate CanMove(s: State, p: Party) {
    exists a :: Owner(a) == Some(p) && Pressing(s, a)
  }

  predicate MovesAt(e: Execution, j: nat, p: Party) {
    e.actions(j).Some? && Owner(e.actions(j).value) == Some(p)
  }

  /** At some moment from `i` on the party takes a step, or cannot. */
  ghost predicate NotStarved(e: Execution, p: Party, i: nat) {
    exists j: nat :: i <= j && (!CanMove(e.states(j), p) || MovesAt(e, j, p))
  }

  /** Weak fairness: nobody who can always move waits forever. */
  ghost predicate Fair(e: Execution) {
    forall p: Party, i: nat :: NotStarved(e, p, i)
  }

  /** A report comes out of a transport whose handle is closed. */
  predicate LateReport(e: Execution, k: nat, id: Id) {
    && e.actions(k).Some? && e.actions(k).value.LinkMoves?
    && e.actions(k).value.id == id && e.actions(k).value.step.Receive?
    && id < |e.states(k).connections| && e.states(k).connections[id].handle.Closed?
  }

  ghost predicate Ceases(e: Execution, id: Id, n: nat) {
    forall k: nat :: n <= k ==> !LateReport(e, k, id)
  }

  /** A closed transport hands out only finitely many reports more. */
  ghost predicate ReportsCease(e: Execution) {
    forall id: Id :: CeasesAtLast(e, id)
  }

  ghost predicate CeasesAtLast(e: Execution, id: Id) {
    exists n: nat :: Ceases(e, id, n)
  }

  lemma {:induction false} InvAt(e: Execution, i: nat)
    requires IsExecution(e)
    ensures Inv(e.states(i))
  {
    hide Inv, Enabled, Apply;
    InvAtStart();
    if i > 0 {
      InvAt(e, i - 1);
      assert Follows(e, i - 1);
      if e.actions(i - 1).Some? {
        InvStep(e.states(i - 1), e.actions(i - 1).value);
      }
    }
  }

  // ------------------------------------------- steps of run and of Close callers

  /** A step `run` or a `Close` caller makes whatever the read loops do. */
  predicate Steady(a: Action) {
    !a.LinkMoves? && !a.DoAllocate? && !a.DoAsk? && !a.DoTake?
  }

  /** Whoever has a helping step to make makes only helping steps. */
  lemma OwnStepHelps(s: State, a: Action, b: Action)
    requires Steady(a) && Enabled(s, a) && Helps(s, a) && Enabled(s, b)
    requires Owner(a).Some? && Owner(b) == Owner(a)
    ensures Helps(s, b)
  {
    hide Apply, Accepted, Serving, Link.Enabled;
  }

  /** A helping step stays one until a step that helps as well is taken, or the context is cancelled. */
  lemma HelpStays(s: State, a: Action, b: Action)
    requires Steady(a) && Enabled(s, a) && Helps(s, a) && Owner(a).Some?
    requires Enabled(s, b) && !Helps(s, b) && Apply(s, b).cancelled == s.cancelled
    ensures Enabled(Apply(s, b), a) && Helps(Apply(s, b), a)
  {
    hide Apply, Enabled, Accepted;
    OthersNudge(s, b);
    if IsSupervisorAction(a) {
      SupervisorStays(s, a, b);
    } else {
      assert CloserIn(a) == Some(a.t);
      if CloserIn(b) == Some(a.t) {
        SameCloser(s, a, b);
      } else {
        StillCloser(s, b, a.t);
        CloserStays(s, a, b);
      }
    }
  }

  lemma SupervisorStays(s: State, a: Action, b: Action)
    requires Steady(a) && Enabled(s, a) && IsSupervisorAction(a)
    requires Enabled(s, b) && !IsSupervisorAction(b) && Apply(s, b).cancelled == s.cancelled
    ensures Enabled(Apply(s, b), a)
  {
    hide Apply, Session.SaysVersion01, Link.Enabled;
    OthersNudge(s, b);
  }

  /** Where a `Close` caller stands decides its next step. */
  lemma SameCloser(s: State, a: Action, b: Action)
    requires Enabled(s, a) && Enabled(s, b) && CloserIn(a).Some? && CloserIn(b) == CloserIn(a)
    ensures a == b
  {
    hide Apply, Accepted, Serving, Link.Enabled;
  }

  lemma CloserStays(s: State, a: Action, b: Action)
    requires Enabled(s, a) && CloserIn(a).Some? && Enabled(s, b) && !IsSupervisorAction(b)
    requires CloserOf(Apply(s, b), CloserIn(a).value) == CloserOf(s, CloserIn(a).value)
    ensures Enabled(Apply(s, b), a)
  {
    hide Apply, Accepted, Serving, Link.Enabled;
    OthersNudge(s, b);
  }

  lemma CancelledStays(s: State, a: Action)
    requires Enabled(s, a) && s.cancelled
    ensures Apply(s, a).cancelled
  {
    hide Accepted, Link.Enabled, Link.Apply, Serving;
  }

  /** At this moment `run` starts to open a device. */
  predicate StartsAt(e: Execution, k: nat) {
    e.actions(k) == Some(StartOpen)
  }

  /** Nothing is lost: `run` is no further from its next attempt, or the context is cancelled meanwhile. */
  predicate NoFurther(s: State, s': State) {
    Measure(s') <= Measure(s) && (s.cancelled ==> s'.cancelled)
  }

  /** `run` is nearer to its next attempt or its exit. */
  predicate IsNearer(s: State, s': State) {
    NoFurther(s, s') && (Measure(s') < Measure(s) || (s'.cancelled && !s.cancelled))
  }

  /** What one moment does while `run` waits for a step of its own or of a `Close` caller. */
  lemma Moment(e: Execution, k: nat, a: Action)
    requires IsExecution(e) && !StartsAt(e, k)
    requires Steady(a) && Enabled(e.states(k), a) && Helps(e.states(k), a) && Owner(a).Some?
    ensures var s, s' := e.states(k), e.states(k + 1);
            && NoFurther(s, s')
            && (IsNearer(s, s') || (s'.cancelled == s.cancelled && Enabled(s', a) && Helps(s', a)
                                    && !MovesAt(e, k, Owner(a).value)))
  {
    hide Inv, Enabled, Apply, Measure, Helps, Owner, Steady;
    InvAt(e, k);
    assert Follows(e, k);
    if e.actions(k).Some? {
      var s, b := e.states(k), e.actions(k).value;
      MeasureStep(s, b);
      if s.cancelled {
        CancelledStays(s, b);
      }
      if Owner(b) == Owner(a) {
        OwnStepHelps(s, a, b);
      } else if !Helps(s, b) && Apply(s, b).cancelled == s.cancelled {
        HelpStays(s, a, b);
      }
    }
  }

  lemma SteadyNearer(e: Execution, i: nat, a: Action) returns (j: nat)
    requires IsExecution(e) && Fair(e)
    requires Steady(a) && Enabled(e.states(i), a) && Helps(e.states(i), a) && Owner(a).Some?
    ensures i < j && (StartsAt(e, j - 1) || IsNearer(e.states(i), e.states(j)))
  {
    hide Enabled, Apply, Measure, Helps, Owner, IsExecution, MovesAt, Steady;
    assert NotStarved(e, Owner(a).value, i);
    var end: nat :| i <= end && (!CanMove(e.states(end), Owner(a).value) || MovesAt(e, end, Owner(a).value));
    j := i;
    while !(i < j && (StartsAt(e, j - 1) || IsNearer(e.states(i), e.states(j))))
      invariant i <= j <= end + 1
      invariant (i < j && (StartsAt(e, j - 1) || IsNearer(e.states(i), e.states(j))))
                || (j <= end && e.states(j).cancelled == e.states(i).cancelled
                    && Measure(e.states(j)) == Measure(e.states(i))
                    && Enabled(e.states(j), a) && Helps(e.states(j), a))
      decreases end + 1 - j
    {
      assert Pressing(e.states(j), a) by { SteadyPresses(e.states(j), a); }
      assert CanMove(e.states(j), Owner(a).value);
      if !StartsAt(e, j) {
        Moment(e, j, a);
      }
      j := j + 1;
    }
  }

  lemma SteadyPresses(s: State, a: Action)
    requires Steady(a) && Enabled(s, a)
    ensures Pressing(s, a)
  {
    hide Enabled;
  }

  // --------------------------------------------------- waiting for a read loop

  /** How much the read loop of a session has to route before it reads again. */
  function BusyAt(s: State, id: Id): nat {
    if id < |s.connections| then Link.Busy(s.connections[id].link) else 0
  }

  /** A step that does not help leaves the wait for the read loop as it is. */
  lemma WaitStays(s: State, b: Action, id: Id)
    requires Inv(s) && WaitsForReader(s, id) && Enabled(s, b) && !Helps(s, b)
    ensures var s' := Apply(s, b);
            && WaitsForReader(s', id)
            && ((b.LinkMoves? && b.id == id && b.step.Receive?) || BusyAt(s', id) <= BusyAt(s, id))
            && (b.LinkMoves? && b.id == id && b.step.Consume? ==> BusyAt(s', id) < BusyAt(s, id))
  {
    hide Apply, Enabled, Link.Apply, Link.Enabled, Link.Busy, Link.Ok, ConnectionsOk, CurrentOk, PointersOk, HandlesOk,
         ClosersOk, CloserOf;
    OthersNudge(s, b);
    ClosedStays(s, b, id);
    if b.LinkMoves? && b.id == id {
      LinkSteps(s, b);
      EndsOnlyByWindUp(s.connections[id].link, b.step);
      if !b.step.Receive? {
        LinkBusy(s.connections[id].link, b.step);
      }
    } else {
      LinkStays(s, b, id);
    }
  }

  lemma LinkBusy(link: Link.State, step: Link.Action)
    requires Link.Ok(link) && Link.Enabled(link, step) && !step.Receive?
    ensures Link.Busy(Link.Apply(link, step)) <= Link.Busy(link)
    ensures step.Consume? ==> Link.Busy(Link.Apply(link, step)) < Link.Busy(link)
  {
    hide Link.Apply, Link.Enabled, Link.Busy, Link.TracedOk, Link.VerifierOk, CallerRaces.Inv, Session.LoopOk;
    if step.Consume? {
      ConsumesWhenBusy(link);
      Link.RoutingGoesOn(link);
    } else {
      Link.OnlyReceiveBusies(link, step);
    }
  }

  lemma ConsumesWhenBusy(link: Link.State)
    requires Link.Enabled(link, Link.Consume)
    ensures !Link.Free(link)
  {
  }

  lemma EndsOnlyByWindUp(link: Link.State, step: Link.Action)
    requires Link.Enabled(link, step) && !step.WindUp?
    ensures Link.Apply(link, step).loop.done == link.loop.done
  {
    hide CallerRaces.Apply, CallerRaces.Enabled, Link.ConsumeStep, Link.AllocateStep, Link.Free;
  }

  /** What one moment does while `run` waits for a read loop that gets no more reports. */
  lemma ReaderMoment(e: Execution, k: nat, id: Id)
    requires IsExecution(e) && WaitsForReader(e.states(k), id)
    ensures CanMove(e.states(k), Reader(id)) && !StartsAt(e, k)
    ensures var s, s' := e.states(k), e.states(k + 1);
            && NoFurther(s, s')
            && (Measure(s') < Measure(s)
                || (WaitsForReader(s', id)
                    && (!LateReport(e, k, id) ==>
                          BusyAt(s', id) + (if MovesAt(e, k, Reader(id)) then 1 else 0) <= BusyAt(s, id))))
  {
    hide Inv, Apply, Measure, BusyAt, NextOfReader, Link.Enabled, Accepted;
    InvAt(e, k);
    assert Follows(e, k);
    var s := e.states(k);
    ReaderPresses(s, id);
    if e.actions(k).Some? {
      var b := e.actions(k).value;
      assert !b.StartOpen?;
      hide Enabled;
      MeasureStep(s, b);
      if s.cancelled {
        CancelledStays(s, b);
      }
      if !Helps(s, b) {
        WaitStays(s, b, id);
        if MovesAt(e, k, Reader(id)) && !LateReport(e, k, id) {
          ReaderConsumes(s, b, id);
        }
      }
    }
  }

  /** Short of helping or receiving, a read loop's own step is one of routing. */
  lemma ReaderConsumes(s: State, b: Action, id: Id)
    requires Enabled(s, b) && Owner(b) == Some(Reader(id)) && !Helps(s, b) && !b.step.Receive?
    ensures b.LinkMoves? && b.id == id && b.step.Consume?
  {
  }

  lemma ReaderPresses(s: State, id: Id)
    requires Inv(s) && WaitsForReader(s, id)
    ensures CanMove(s, Reader(id))
  {
    hide Link.Ok, Link.Enabled, Link.Apply, Accepted, Serving;
    ReaderGoesOn(s, id);
    var a := LinkMoves(id, NextOfReader(s.connections[id].link));
    assert Owner(a) == Some(Reader(id)) && Pressing(s, a);
  }

  /** The read loop of a closed handle that gets no more reports ends, or somebody else helps meanwhile. */
  lemma {:induction false} ReaderNearer(e: Execution, i: nat, n: nat, id: Id) returns (j: nat)
    requires IsExecution(e) && Fair(e) && Ceases(e, id, n) && n <= i && WaitsForReader(e.states(i), id)
    ensures i < j && NoFurther(e.states(i), e.states(j)) && Measure(e.states(j)) < Measure(e.states(i))
    decreases BusyAt(e.states(i), id)
  {
    hide Measure, IsExecution, MovesAt, LateReport, CanMove, BusyAt, WaitsForReader;
    assert NotStarved(e, Reader(id), i);
    var end: nat :| i <= end && (!CanMove(e.states(end), Reader(id)) || MovesAt(e, end, Reader(id)));
    j := i;
    while j <= end && Measure(e.states(j)) == Measure(e.states(i))
      invariant i <= j <= end + 1 && NoFurther(e.states(i), e.states(j))
      invariant if Measure(e.states(j)) < Measure(e.states(i)) then i < j
                else WaitsForReader(e.states(j), id)
                     && BusyAt(e.states(j), id) + (if j <= end then 0 else 1) <= BusyAt(e.states(i), id)
    {
      assert !LateReport(e, j, id);
      ReaderMoment(e, j, id);
      j := j + 1;
    }
    if Measure(e.states(j)) == Measure(e.states(i)) {
      j := ReaderNearer(e, j, n, id);
    }
  }

  /** The wait for a read loop lasts at most until its transport gives no more reports and it has routed the last. */
  lemma WaitForReader(e: Execution, i: nat, id: Id) returns (j: nat)
    requires IsExecution(e) && Fair(e) && ReportsCease(e) && WaitsForReader(e.states(i), id)
    ensures i < j && NoFurther(e.states(i), e.states(j)) && Measure(e.states(j)) < Measure(e.states(i))
  {
    hide Measure, IsExecution, MovesAt, CanMove, BusyAt, WaitsForReader, Ceases;
    assert CeasesAtLast(e, id);
    var n: nat :| Ceases(e, id, n);
    j := i;
    while j < n && Measure(e.states(j)) == Measure(e.states(i))
      invariant i <= j && NoFurther(e.states(i), e.states(j))
      invariant if Measure(e.states(j)) < Measure(e.states(i)) then i < j else WaitsForReader(e.states(j), id)
    {
      ReaderMoment(e, j, id);
      j := j + 1;
    }
    if Measure(e.states(j)) == Measure(e.states(i)) {
      j := ReaderNearer(e, j, n, id);
    }
  }

  // ------------------------------------------------------------- the next attempt

  /** `run` is letting go of a session that has ended, or between two attempts: it waits for no read loop. */
  predicate BetweenAttempts(pc: Pc) {
    Over(pc) || pc.Retry? || pc.RetryWait? || pc.Top? || pc.Exited?
  }

  lemma RunNearer(e: Execution, i: nat) returns (j: nat)
    requires IsExecution(e) && Fair(e) && Going(e.states(i))
    requires ReportsCease(e) || BetweenAttempts(e.states(i).pc)
    ensures i < j && (StartsAt(e, j - 1) || IsNearer(e.states(i), e.states(j)))
  {
    hide Inv, Enabled, Apply, Measure, WaitsForReader, NextOfReader, IsExecution, Fair, Serving, Accepted;
    var s := e.states(i);
    InvAt(e, i);
    RunNeverStuck(s);
    var a := NextOfRun(s);
    NextIsSteady(s);
    if a.LinkMoves? {
      j := WaitForReader(e, i, a.id);
    } else {
      j := SteadyNearer(e, i, a);
    }
  }

  lemma NextIsSteady(s: State)
    requires Going(s)
    ensures var a := NextOfRun(s);
            && (a.LinkMoves? ==> s.pc.Draining?)
            && (!a.LinkMoves? ==> Steady(a) && Owner(a).Some?)
  {
    hide Accepted, NextOfReader;
  }

  lemma BetweenStays(s: State, a: Action)
    requires Enabled(s, a) && BetweenAttempts(s.pc) && !a.StartOpen?
    ensures BetweenAttempts(Apply(s, a).pc)
  {
    hide Link.Apply, Link.Enabled, Accepted, Serving;
  }

  lemma {:induction false} BetweenUntilStart(e: Execution, i: nat, j: nat)
    requires IsExecution(e) && i <= j && BetweenAttempts(e.states(i).pc)
    requires forall k :: i <= k < j ==> !StartsAt(e, k)
    ensures BetweenAttempts(e.states(j).pc)
    decreases j
  {
    hide BetweenAttempts, Enabled, Apply;
    if i < j {
      BetweenUntilStart(e, i, j - 1);
      assert Follows(e, j - 1) && !StartsAt(e, j - 1);
      if e.actions(j - 1).Some? {
        BetweenStays(e.states(j - 1), e.actions(j - 1).value);
      }
    }
  }

  /** The first attempt among these moments, if there is one. */
  lemma FirstStart(e: Execution, i: nat, j: nat) returns (k: nat)
    requires i <= j
    ensures i <= k <= j && (forall m :: i <= m < k ==> !StartsAt(e, m)) && (k < j ==> StartsAt(e, k))
  {
    k := i;
    while k < j && !StartsAt(e, k)
      invariant i <= k <= j && forall m :: i <= m < k ==> !StartsAt(e, m)
    {
      k := k + 1;
    }
  }

  /** `run` goes on until it opens a device, returns, or rests with a session online. */
  lemma {:induction false} KeepsGoing(e: Execution, i: nat) returns (j: nat)
    requires IsExecution(e) && Fair(e) && (ReportsCease(e) || BetweenAttempts(e.states(i).pc))
    ensures i <= j
    ensures (i < j && StartsAt(e, j - 1))
            || (!Going(e.states(j))
                && (BetweenAttempts(e.states(i).pc) ==> BetweenAttempts(e.states(j).pc)))
    decreases if e.states(i).cancelled then 0 else 1, Measure(e.states(i))
  {
    hide Measure, IsExecution, Fair, ReportsCease, Going, BetweenAttempts;
    j := i;
    if Going(e.states(i)) {
      var next := RunNearer(e, i);
      var k := FirstStart(e, i, next);
      if k < next {
        j := k + 1;
      } else {
        if BetweenAttempts(e.states(i).pc) {
          BetweenUntilStart(e, i, next);
        }
        j := KeepsGoing(e, next);
      }
    }
  }

  ghost predicate NeverCancelled(e: Execution, i: nat) {
    forall k: nat :: i <= k ==> !e.states(k).cancelled
  }

  /** The session `run` serves is online and has not ended. */
  predicate Live(s: State) {
    s.pc.Online? && Serving(s) && !Ended(s.connections[s.pc.id])
  }

  lemma RestingIsLive(s: State)
    requires Inv(s) && !s.cancelled && !Going(s)
    ensures Live(s)
  {
  }

  /**
   The service never gives up: while nobody cancels it, from every moment on it comes to a next attempt to open a
   device, or to a session that is online and goes on, whatever fails in between.
   */
  lemma KeepsTrying(e: Execution, i: nat) returns (j: nat)
    requires IsExecution(e) && Fair(e) && ReportsCease(e) && NeverCancelled(e, i)
    ensures i <= j && ((i < j && StartsAt(e, j - 1) && e.states(j).pc.Opening?) || Live(e.states(j)))
  {
    hide Inv, Fair, ReportsCease, Going, Live, Apply, Enabled;
    j := KeepsGoing(e, i);
    if i < j && StartsAt(e, j - 1) {
      StartedIsOpening(e, j - 1);
    } else {
      InvAt(e, j);
      RestingIsLive(e.states(j));
    }
  }

  lemma StartedIsOpening(e: Execution, k: nat)
    requires IsExecution(e) && StartsAt(e, k)
    ensures e.states(k + 1).pc.Opening?
  {
    assert Follows(e, k);
  }

  lemma NobodyRestsBetween(s: State)
    requires Inv(s) && BetweenAttempts(s.pc) && !s.cancelled
    ensures Going(s)
  {
  }

  /**
   It opens again: `run` standing in waitRetry, or letting go of a session that has ended, comes to open a device,
   unless the context is cancelled.
   */
  lemma OpensAgain(e: Execution, i: nat) returns (j: nat)
    requires IsExecution(e) && Fair(e) && NeverCancelled(e, i) && BetweenAttempts(e.states(i).pc)
    ensures i < j && e.states(j).pc.Opening?
  {
    hide Inv, Fair, Going, BetweenAttempts, Apply, Enabled;
    j := KeepsGoing(e, i);
    if i < j && StartsAt(e, j - 1) {
      StartedIsOpening(e, j - 1);
    } else {
      InvAt(e, j);
      NobodyRestsBetween(e.states(j));
    }
  }

  /** What `run` does with a session that has ended, as long as nobody cancels. */
  lemma EndedStep(s: State, a: Action)
    requires Enabled(s, a) && s.pc.Online? && Serving(s) && Ended(s.connections[s.pc.id]) && !s.cancelled
    ensures var s' := Apply(s, a);
            if Owner(a) == Some(Supervisor) then s'.pc.DropActive?
            else s'.pc == s.pc && Serving(s') && Ended(s'.connections[s'.pc.id])
  {
    hide Link.Apply, Link.Enabled, Accepted;
    if !IsSupervisorAction(a) {
      OthersNudge(s, a);
    }
  }

  /** A session that ends, a disconnected device's above all, is followed by the next attempt. */
  lemma OpensAfterDisconnect(e: Execution, i: nat) returns (j: nat)
    requires IsExecution(e) && Fair(e) && NeverCancelled(e, i)
    requires var s := e.states(i); s.pc.Online? && Serving(s) && Ended(s.connections[s.pc.id])
    ensures i < j && e.states(j).pc.Opening?
  {
    hide Inv, Apply, CanMove, Link.Apply, Link.Enabled, Accepted;
    assert NotStarved(e, Supervisor, i);
    var end: nat :| i <= end && (!CanMove(e.states(end), Supervisor) || MovesAt(e, end, Supervisor));
    j := i;
    while !e.states(j).pc.DropActive?
      invariant i <= j <= end + 1
      invariant e.states(j).pc.DropActive?
                || (j <= end && e.states(j).pc.Online? && Serving(e.states(j))
                    && Ended(e.states(j).connections[e.states(j).pc.id]))
      decreases end + 1 - j
    {
      EndedMoment(e, j);
      j := j + 1;
    }
    j := OpensAgain(e, j);
  }

  lemma EndedMoment(e: Execution, j: nat)
    requires IsExecution(e) && !e.states(j).cancelled
    requires var s := e.states(j); s.pc.Online? && Serving(s) && Ended(s.connections[s.pc.id])
    ensures CanMove(e.states(j), Supervisor)
    ensures var s' := e.states(j + 1);
            if MovesAt(e, j, Supervisor) then s'.pc.DropActive?
            else s'.pc.Online? && Serving(s') && Ended(s'.connections[s'.pc.id])
  {
    assert Owner(SeeEnded) == Some(Supervisor) && Pressing(e.states(j), SeeEnded);
    hide Apply, Enabled, Owner;
    assert Follows(e, j);
    if e.actions(j).Some? {
      EndedStep(e.states(j), e.actions(j).value);
    }
  }

  /** `run` is about to publish the session, which has taken an answer that says 0.1. */
  predicate Rising(s: State, id: Id) {
    && Current(s.pc) == Some(id) && id < |s.connections|
    && (s.pc.StoreInfo? || s.pc.ClearError? || s.pc.StoreActive?
        || (s.pc.Judging? && s.connections[id].link.taken.Some?
            && Session.SaysVersion01(s.connections[id].link.taken.value)))
  }

  /** Whatever the others do, each step of `run` takes it on, the last one publishes. */
  lemma RisingStep(s: State, a: Action, id: Id)
    requires Enabled(s, a) && Rising(s, id)
    ensures var s' := Apply(s, a);
            if IsSupervisorAction(a) then
              if s.pc.StoreActive? then s'.active == Some(id) && s'.pc == Online(id)
              else Rising(s', id) && Rank(s') < Rank(s)
            else Rising(s', id) && Rank(s') == Rank(s)
  {
    hide Link.Apply, Link.Enabled, Session.SaysVersion01, AllocateRank;
    if !IsSupervisorAction(a) {
      OthersNudge(s, a);
    }
  }

  lemma RisingMoment(e: Execution, k: nat, id: Id)
    requires IsExecution(e) && Rising(e.states(k), id)
    ensures CanMove(e.states(k), Supervisor)
    ensures var s, s' := e.states(k), e.states(k + 1);
            if MovesAt(e, k, Supervisor) && s.pc.StoreActive? then s'.active == Some(id) && s'.pc == Online(id)
            else Rising(s', id) && (if MovesAt(e, k, Supervisor) then Rank(s') < Rank(s) else Rank(s') == Rank(s))
  {
    hide Apply, Rank, Session.SaysVersion01;
    var s := e.states(k);
    var a := match s.pc
      case Judging(_) => VerifySucceeds
      case StoreInfo(_) => DoStoreInfo
      case ClearError(_) => DoClearError
      case _ => DoStoreActive;
    assert Owner(a) == Some(Supervisor) && Pressing(s, a);
    hide Enabled, Rising, CanMove;
    assert Follows(e, k);
    if e.actions(k).Some? {
      RisingStep(s, e.actions(k).value, id);
    }
  }

  /** A device that answered 0.1 is put online and published, in every fair execution. */
  lemma {:induction false} AcceptedGoesOnline(e: Execution, i: nat, id: Id) returns (j: nat)
    requires IsExecution(e) && Fair(e) && Rising(e.states(i), id)
    ensures i < j && e.states(j).active == Some(id) && e.states(j).pc == Online(id)
    decreases Rank(e.states(i))
  {
    hide IsExecution, Rising, Rank, CanMove, MovesAt;
    assert NotStarved(e, Supervisor, i);
    var end: nat :| i <= end && (!CanMove(e.states(end), Supervisor) || MovesAt(e, end, Supervisor));
    j := i;
    while !MovesAt(e, j, Supervisor)
      invariant i <= j <= end && Rising(e.states(j), id) && Rank(e.states(j)) == Rank(e.states(i))
      decreases end - j
    {
      RisingMoment(e, j, id);
      j := j + 1;
    }
    RisingMoment(e, j, id);
    if e.states(j).pc.StoreActive? {
      j := j + 1;
    } else {
      j := AcceptedGoesOnline(e, j + 1, id);
    }
  }

  lemma {:induction false} CancelledForGood(e: Execution, i: nat, j: nat)
    requires IsExecution(e) && i <= j && e.states(i).cancelled
    ensures e.states(j).cancelled
    decreases j
  {
    hide Apply, Enabled;
    if i < j {
      CancelledForGood(e, i, j - 1);
      assert Follows(e, j - 1);
      if e.actions(j - 1).Some? {
        CancelledStays(e.states(j - 1), e.actions(j - 1).value);
      }
    }
  }

  /** Once the context is cancelled `run` returns. */
  lemma ExitsOnceCancelled(e: Execution, i: nat) returns (j: nat)
    requires IsExecution(e) && Fair(e) && ReportsCease(e) && e.states(i).cancelled
    ensures i <= j && e.states(j).pc.Exited? && e.states(j).cancelled
  {
    hide Fair, ReportsCease, Apply;
    j := KeepsGoing(e, i);
    CancelledForGood(e, i, j);
    if i < j {
      CancelledForGood(e, i, j - 1);
      NoStartOnceCancelled(e, j - 1);
    }
  }

  lemma NoStartOnceCancelled(e: Execution, k: nat)
    requires IsExecution(e) && e.states(k).cancelled
    ensures !StartsAt(e, k)
  {
    assert Follows(e, k);
  }
}
