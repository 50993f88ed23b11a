/**
 The HID device's writer and shutdown protocol as an interleaving of any number of threads, one atomic
 operation of the code per step: `Write` callers, a failing `Read`, `Close` callers, and the writer loop
 that owns the physical writes.
 */
module DeviceShutdown {
  import opened Wrappers
  import opened Protocol

  type Thread = nat

  const QUEUE_CAPACITY: nat := 64

  datatype Pc =
    | Idle
    | Checking(report: Report)      // in Write, about to look at `stopping`
    | Offering(report: Report)      // past that check, in Write's select
    | BeforeStop(closing: bool)     // in stop(), about to swap `stopping`; `closing` when called from Close
    | ClosingDone(closing: bool)    // won the swap, about to close `done`
    | Waiting                       // in Close, waiting for `writerDone`
    | BeforeHandle                  // in closeHandle(), about to swap `closed`
    | ClosingHandle                 // won the swap, about to close the handle
    | Returned                      // Close has returned

  datatype WriterPc =
    | Select
    | Writing(report: Report)       // took a report, about to write it
    | Failed                        // the write failed, about to swap `stopping`
    | FailedDone                    // won the swap, about to close `done`
    | FailedHandle                  // about to swap `closed`
    | FailedClosing                 // won the swap, about to close the handle
    | Leaving                       // about to close `writerDone`
    | Finished

  datatype Party = Writer | Caller(t: Thread)

  /**
   `accepted`, `taken` and `attempted` are the reports ever enqueued, dequeued and handed to the
   physical write; `doneBy` and `handleBy` name who has won a swap and not yet acted on it.
   */
  datatype State = State(
    queue: seq<Report>, accepted: seq<Report>, taken: seq<Report>, attempted: seq<Report>,
    stopping: bool, doneCloses: nat, doneBy: Option<Party>,
    closed: bool, handleCloses: nat, handleBy: Option<Party>,
    writer: WriterPc, threads: map<Thread, Pc>)

  const START := State([], [], [], [], false, 0, None, false, 0, None, Select, map[])

  function PcOf(s: State, t: Thread): Pc {
    if t in s.threads then s.threads[t] else Idle
  }

  /** The `done` channel is closed. */
  predicate Done(s: State) {
    s.doneCloses > 0
  }

  datatype Action =
    | CallWrite(t: Thread, report: Report)
    | CheckWrite(t: Thread)
    | Enqueue(t: Thread)
    | RefuseWrite(t: Thread)
    | ReadFails(t: Thread)
    | CallClose(t: Thread)
    | Stop(t: Thread)
    | CloseDone(t: Thread)
    | Wait(t: Thread)
    | SwapClosed(t: Thread)
    | CloseHandle(t: Thread)
    | WriterTake
    | WriterQuit
    | WriterWrite(ok: bool)
    | WriterStop
    | WriterCloseDone
    | WriterSwap
    | WriterCloseHandle
    | WriterLeave

  predicate IsWriterAction(a: Action) {
    match a
    case WriterTake => true
    case WriterQuit => true
    case WriterWrite(_) => true
    case WriterStop => true
    case WriterCloseDone => true
    case WriterSwap => true
    case WriterCloseHandle => true
    case WriterLeave => true
    case _ => false
  }

  predicate Enabled(s: State, a: Action) {
    match a
    case CallWrite(t, _) => PcOf(s, t).Idle?
    case CheckWrite(t) => PcOf(s, t).Checking?
    case Enqueue(t) => PcOf(s, t).Offering? && |s.queue| < QUEUE_CAPACITY
    case RefuseWrite(t) => PcOf(s, t).Offering? && Done(s)
    case ReadFails(t) => PcOf(s, t).Idle?
    case CallClose(t) => PcOf(s, t).Idle?
    case Stop(t) => PcOf(s, t).BeforeStop?
    case CloseDone(t) => PcOf(s, t).ClosingDone?
    case Wait(t) => PcOf(s, t).Waiting? && s.writer.Finished?
    case SwapClosed(t) => PcOf(s, t).BeforeHandle?
    case CloseHandle(t) => PcOf(s, t).ClosingHandle?
    case WriterTake => s.writer.Select? && s.queue != []
    case WriterQuit => s.writer.Select? && Done(s)
    case WriterWrite(_) => s.writer.Writing?
    case WriterStop => s.writer.Failed?
    case WriterCloseDone => s.writer.FailedDone?
    case WriterSwap => s.writer.FailedHandle?
    case WriterCloseHandle => s.writer.FailedClosing?
    case WriterLeave => s.writer.Leaving?
  }

  /** Where a thread goes on after stop(): on to `writerDone` in Close, back to its caller in Read. */
  function AfterStop(closing: bool): Pc {
    if closing then Waiting else Idle
  }

  function Apply(s: State, a: Action): State
    requires Enabled(s, a)
  {
    match a
    case CallWrite(t, report) => s.(threads := s.threads[t := Checking(report)])
    case CheckWrite(t) =>
      s.(threads := s.threads[t := if s.stopping then Idle else Offering(PcOf(s, t).report)])
    case Enqueue(t) =>
      var report := PcOf(s, t).report;
      s.(queue := s.queue + [report], accepted := s.accepted + [report], threads := s.threads[t := Idle])
    case RefuseWrite(t) => s.(threads := s.threads[t := Idle])
    case ReadFails(t) => s.(threads := s.threads[t := BeforeStop(false)])
    case CallClose(t) => s.(threads := s.threads[t := BeforeStop(true)])
    case Stop(t) =>
      var closing := PcOf(s, t).closing;
      if s.stopping then s.(threads := s.threads[t := AfterStop(closing)])
      else s.(stopping := true, doneBy := Some(Caller(t)), threads := s.threads[t := ClosingDone(closing)])
    case CloseDone(t) =>
      s.(doneCloses := s.doneCloses + 1, doneBy := None, threads := s.threads[t := AfterStop(PcOf(s, t).closing)])
    case Wait(t) => s.(threads := s.threads[t := BeforeHandle])
    case SwapClosed(t) =>
      if s.closed then s.(threads := s.threads[t := Returned])
      else s.(closed := true, handleBy := Some(Caller(t)), threads := s.threads[t := ClosingHandle])
    case CloseHandle(t) =>
      s.(handleCloses := s.handleCloses + 1, handleBy := None, threads := s.threads[t := Returned])
    case WriterTake =>
      s.(queue := s.queue[1..], taken := s.taken + [s.queue[0]], writer := Writing(s.queue[0]))
    case WriterQuit => s.(writer := Leaving)
    case WriterWrite(ok) =>
      s.(attempted := s.attempted + [s.writer.report], writer := if ok then Select else Failed)
    case WriterStop =>
      if s.stopping then s.(writer := FailedHandle)
      else s.(stopping := true, doneBy := Some(Writer), writer := FailedDone)
    case WriterCloseDone => s.(doneCloses := s.doneCloses + 1, doneBy := None, writer := FailedHandle)
    case WriterSwap =>
      if s.closed then s.(writer := Leaving) else s.(closed := true, handleBy := Some(Writer), writer := FailedClosing)
    case WriterCloseHandle => s.(handleCloses := s.handleCloses + 1, handleBy := None, writer := Leaving)
    case WriterLeave => s.(writer := Finished)
  }

  datatype Run = Run(states: seq<State>, actions: seq<Action>)

  /** The `i`-th step of a run is one the code can take. */
  ghost predicate Taken(run: Run, i: nat)
    requires i < |run.actions| && i + 1 < |run.states|
  {
    Enabled(run.states[i], run.actions[i]) && run.states[i + 1] == Apply(run.states[i], run.actions[i])
  }

  ghost predicate IsRun(run: Run) {
    && |run.states| == |run.actions| + 1
    && run.states[0] == START
    && forall i: nat :: i < |run.actions| ==> Taken(run, i)
  }

  // ------------------------------------------------------------- the invariant

  /** Conservation of reports: accepted is written, in hand, or queued, in that order. */
  ghost predicate ReportsOk(s: State) {
    && s.accepted == s.taken + s.queue
    && s.taken == s.attempted + (if s.writer.Writing? then [s.writer.report] else [])
    && |s.queue| <= QUEUE_CAPACITY
  }

  ghost predicate DoneOk(s: State) {
    && s.doneCloses <= 1
    && (s.stopping <==> s.doneBy.Some? || s.doneCloses == 1)
    && (s.doneBy.Some? ==> s.doneCloses == 0)
    && (s.writer.FailedDone? <==> s.doneBy == Some(Writer))
    && (forall t | t in s.threads :: s.threads[t].ClosingDone? <==> s.doneBy == Some(Caller(t)))
    && (s.doneBy.Some? && s.doneBy.value.Caller? ==> s.doneBy.value.t in s.threads)
  }

  ghost predicate HandleOk(s: State) {
    && s.handleCloses <= 1
    && (s.closed <==> s.handleBy.Some? || s.handleCloses == 1)
    && (s.handleBy.Some? ==> s.handleCloses == 0)
    && (s.writer.FailedClosing? <==> s.handleBy == Some(Writer))
    && (forall t | t in s.threads :: s.threads[t].ClosingHandle? <==> s.handleBy == Some(Caller(t)))
    && (s.handleBy.Some? && s.handleBy.value.Caller? ==> s.handleBy.value.t in s.threads)
  }

  /** Only a finished writer lets a closer reach the handle; a writing one finds it open. */
  ghost predicate OrderOk(s: State) {
    && (s.closed ==> s.writer.FailedClosing? || s.writer.Leaving? || s.writer.Finished?)
    && (forall t | t in s.threads ::
          && (s.threads[t].BeforeHandle? || s.threads[t].ClosingHandle? || s.threads[t].Returned? ==>
                s.writer.Finished?)
          && (s.threads[t].Waiting? || s.threads[t].BeforeHandle? ==> s.stopping)
          && (s.threads[t].Returned? ==> s.stopping && s.closed))
    && (s.writer.FailedHandle? || s.writer.FailedClosing? || s.writer.Leaving? || s.writer.Finished? ==> s.stopping)
  }

  ghost predicate Inv(s: State) {
    ReportsOk(s) && DoneOk(s) && HandleOk(s) && OrderOk(s)
  }

  lemma ReportsStep(s: State, a: Action)
    requires Inv(s) && Enabled(s, a)
    ensures ReportsOk(Apply(s, a))
  {
    if a.WriterTake? {
      assert s.taken + s.queue == s.taken + [s.queue[0]] + s.queue[1..];
    }
  }

  lemma DoneStep(s: State, a: Action)
    requires Inv(s) && Enabled(s, a)
    ensures DoneOk(Apply(s, a))
  {
  }

  lemma HandleStep(s: State, a: Action)
    requires Inv(s) && Enabled(s, a)
    ensures HandleOk(Apply(s, a))
  {
  }

  lemma OrderStep(s: State, a: Action)
    requires Inv(s) && Enabled(s, a)
    ensures OrderOk(Apply(s, a))
  {
  }

  lemma InvAtStart()
    ensures Inv(START)
  {
  }

  lemma InvStep(s: State, a: Action)
    requires Inv(s) && Enabled(s, a)
    ensures Inv(Apply(s, a))
  {
    hide Enabled, Apply, ReportsOk, DoneOk, HandleOk, OrderOk;
    ReportsStep(s, a);
    DoneStep(s, a);
    HandleStep(s, a);
    OrderStep(s, a);
  }

  lemma {:induction false} InvAlong(run: Run, i: nat)
    requires IsRun(run) && i < |run.states|
    ensures Inv(run.states[i])
  {
    hide Inv, Enabled, Apply;
    InvAtStart();
    if i > 0 {
      InvAlong(run, i - 1);
      assert Taken(run, i - 1);
      InvStep(run.states[i - 1], run.actions[i - 1]);
    }
  }

  // ------------------------------------------------------------------- safety

  /**
   In every reachable state, however everything interleaves: the attempted physical writes are a prefix
   of the accepted reports, in order and each once; `done` and the handle were each closed at most once;
   and a physical write that can start now finds the handle open.
   */
  lemma WritesInOrder(run: Run, i: nat)
    requires IsRun(run) && i < |run.states|
    ensures var s := run.states[i];
            && s.attempted <= s.accepted
            && s.doneCloses <= 1 && s.handleCloses <= 1
            && (s.writer.Writing? ==>
                  !s.closed && s.handleCloses == 0 && s.attempted + [s.writer.report] <= s.accepted)
  {
    InvAlong(run, i);
  }

  /**
   When a `Close` has returned the writer has ended and the handle is committed to being closed. It is still
   open if and only if another `Close` has won the swap and not yet closed it; so with no other `Close`
   pending it is closed.
   */
  lemma ReturnedClose(run: Run, i: nat, t: Thread)
    requires IsRun(run) && i < |run.states| && PcOf(run.states[i], t).Returned?
    ensures var s := run.states[i];
            && s.stopping && s.closed && s.writer.Finished?
            && (s.handleCloses == 0 <==> exists u :: u != t && PcOf(s, u).ClosingHandle?)
            && ((forall u :: u != t ==> !InClose(PcOf(s, u))) ==> s.handleCloses == 1)
  {
    InvAlong(run, i);
    var s := run.states[i];
    if s.handleCloses == 0 {
      assert s.handleBy.value != Caller(t);
      assert PcOf(s, s.handleBy.value.t).ClosingHandle?;
    }
  }

  function Last(run: Run): State {
    if run.states == [] then START else run.states[|run.states| - 1]
  }

  lemma Extend(run: Run, a: Action) returns (longer: Run)
    requires IsRun(run) && Enabled(Last(run), a)
    ensures IsRun(longer) && Last(longer) == Apply(Last(run), a)
  {
    hide Apply, Enabled;
    longer := Run(run.states + [Apply(Last(run), a)], run.actions + [a]);
    forall i: nat | i < |longer.actions|
      ensures Taken(longer, i)
    {
      assert i < |run.actions| ==> Taken(run, i);
    }
  }

  lemma TwoClosersWait() returns (run: Run)
    ensures IsRun(run)
    ensures var s := Last(run);
            PcOf(s, 1).Waiting? && PcOf(s, 2).Waiting? && s.writer.Finished? && !s.closed && s.handleCloses == 0
  {
    run := Run([START], []);
    assert IsRun(run);
    hide IsRun;
    run := Extend(run, CallClose(1));
    run := Extend(run, CallClose(2));
    run := Extend(run, Stop(1));
    run := Extend(run, CloseDone(1));
    run := Extend(run, Stop(2));
    run := Extend(run, WriterQuit);
    run := Extend(run, WriterLeave);
  }

  /** Two racing `Close` calls: the one that loses the swap can return while the handle is still open. */
  lemma CloseReturnsEarly() returns (run: Run)
    ensures IsRun(run) && PcOf(Last(run), 2).Returned? && Last(run).handleCloses == 0
  {
    hide IsRun;
    run := TwoClosersWait();
    run := Extend(run, Wait(1));
    run := Extend(run, Wait(2));
    run := Extend(run, SwapClosed(1));
    run := Extend(run, SwapClosed(2));
  }

  // ----------------------------------------------------------------- shutdown

  ghost function OfferingThreads(s: State): set<Thread> {
    set t | t in s.threads && s.threads[t].Offering?
  }

  /** Reports the writer may still meet: those queued and those of `Write` calls past the stopping check. */
  ghost function Pending(s: State): nat {
    |s.queue| + |OfferingThreads(s)|
  }

  lemma PendingStep(s: State, a: Action)
    requires Inv(s) && Enabled(s, a) && s.stopping
    ensures var s' := Apply(s, a);
            && s'.stopping
            && Pending(s') + |s'.taken| <= Pending(s) + |s.taken|
            && Pending(s') <= Pending(s)
  {
    var s' := Apply(s, a);
    match a {
      case Enqueue(t) => assert OfferingThreads(s') == OfferingThreads(s) - {t};
      case RefuseWrite(t) => assert OfferingThreads(s') == OfferingThreads(s) - {t};
      case _ => assert OfferingThreads(s') == OfferingThreads(s);
    }
  }

  /**
   Once stopping, the writer's further iterations over the whole rest of the run are at most the reports
   queued plus the `Write` calls already past the stopping check, even if its select always prefers the
   queue and new `Write` calls keep coming.
   */
  lemma {:induction false} IterationsBounded(run: Run, i: nat, j: nat)
    requires IsRun(run) && i <= j < |run.states| && run.states[i].stopping
    ensures run.states[j].stopping
    ensures |run.states[j].taken| - |run.states[i].taken| + Pending(run.states[j]) <= Pending(run.states[i])
    decreases j
  {
    hide Inv, Enabled, Apply, Pending;
    if i < j {
      IterationsBounded(run, i, j - 1);
      InvAlong(run, j - 1);
      assert Taken(run, j - 1);
      PendingStep(run.states[j - 1], run.actions[j - 1]);
    }
  }

  function WriterRank(pc: WriterPc): nat {
    match pc
    case Writing(_) => 6
    case Failed => 5
    case FailedDone => 4
    case FailedHandle => 3
    case Select => 2
    case FailedClosing => 2
    case Leaving => 1
    case Finished => 0
  }

  ghost function ShutdownRank(s: State): nat {
    8 * Pending(s) + WriterRank(s.writer)
  }

  /** How many of the actions from `i` up to `j` are the writer's. */
  function WriterSteps(actions: seq<Action>, i: nat, j: nat): nat
    requires i <= j <= |actions|
  {
    if i == j then 0 else WriterSteps(actions, i, j - 1) + if IsWriterAction(actions[j - 1]) then 1 else 0
  }

  lemma RankStep(s: State, a: Action)
    requires Inv(s) && Enabled(s, a) && s.stopping
    ensures ShutdownRank(Apply(s, a)) + (if IsWriterAction(a) then 1 else 0) <= ShutdownRank(s)
  {
    PendingStep(s, a);
    if IsWriterAction(a) {
      assert OfferingThreads(Apply(s, a)) == OfferingThreads(s);
    }
  }

  /** Once stopping, the writer takes at most `ShutdownRank` steps, whatever the other threads do. */
  lemma {:induction false} WriterStepsBounded(run: Run, i: nat, j: nat)
    requires IsRun(run) && i <= j < |run.states| && run.states[i].stopping
    ensures WriterSteps(run.actions, i, j) + ShutdownRank(run.states[j]) <= ShutdownRank(run.states[i])
    decreases j
  {
    hide Inv, Enabled, Apply, ShutdownRank, IsWriterAction, Pending;
    if i < j {
      var s, a := run.states[j - 1], run.actions[j - 1];
      assert Taken(run, j - 1);
      WriterStepsBounded(run, i, j - 1);
      IterationsBounded(run, i, j - 1);
      InvAlong(run, j - 1);
      RankStep(s, a);
    }
  }

  function CloserRank(pc: Pc): nat {
    match pc
    case BeforeStop(_) => 5
    case ClosingDone(_) => 4
    case Waiting => 3
    case BeforeHandle => 2
    case ClosingHandle => 1
    case _ => 0
  }

  /** The closing thread's own step. */
  predicate IsCloserAction(a: Action, t: Thread) {
    a == Stop(t) || a == CloseDone(t) || a == Wait(t) || a == SwapClosed(t) || a == CloseHandle(t)
  }

  predicate InClose(pc: Pc) {
    || (pc.BeforeStop? && pc.closing) || (pc.ClosingDone? && pc.closing)
    || pc.Waiting? || pc.BeforeHandle? || pc.ClosingHandle?
  }

  /** A closing thread moves only by its own at most five steps, and ends by returning. */
  lemma CloserDescends(s: State, a: Action, t: Thread)
    requires Enabled(s, a) && InClose(PcOf(s, t))
    ensures var pc' := PcOf(Apply(s, a), t);
            if IsCloserAction(a, t) then
              (InClose(pc') || pc'.Returned?) && CloserRank(pc') < CloserRank(PcOf(s, t))
            else pc' == PcOf(s, t)
  {
  }

  /** A step that brings a pending `Close` of `t` nearer: its own, the writer's, or closing `done`. */
  predicate Helps(s: State, a: Action, t: Thread) {
    IsCloserAction(a, t) || a.CloseDone? || (s.stopping && IsWriterAction(a))
  }

  ghost function CloseMeasure(s: State, t: Thread): nat {
    ShutdownRank(s) + CloserRank(PcOf(s, t)) + if Done(s) then 0 else 1
  }

  lemma CloseMeasureStep(s: State, a: Action, t: Thread)
    requires Inv(s) && Enabled(s, a) && s.stopping && InClose(PcOf(s, t))
    ensures var s' := Apply(s, a);
            && s'.stopping && (InClose(PcOf(s', t)) || (PcOf(s', t).Returned? && Helps(s, a, t)))
            && CloseMeasure(s', t) + (if Helps(s, a, t) then 1 else 0) <= CloseMeasure(s, t)
  {
    hide ReportsOk, HandleOk, OrderOk, ShutdownRank;
    RankStep(s, a);
    CloserDescends(s, a, t);
    DoneStep(s, a);
    StoppingStays(s, a);
  }

  lemma StoppingStays(s: State, a: Action)
    requires Enabled(s, a) && s.stopping
    ensures Apply(s, a).stopping
  {
  }

  /** How many of the actions from `i` up to `j` help `t`. */
  function HelpingSteps(run: Run, t: Thread, i: nat, j: nat): nat
    requires i <= j <= |run.actions| && |run.actions| <= |run.states|
  {
    if i == j then 0
    else HelpingSteps(run, t, i, j - 1) + if Helps(run.states[j - 1], run.actions[j - 1], t) then 1 else 0
  }

  /**
   Once stopping, a `Close` still pending at `j` has been helped at most as often as the measure at `i`
   allows, however many other steps interleaved.
   */
  lemma {:induction false} CloseBounded(run: Run, i: nat, j: nat, t: Thread)
    requires IsRun(run) && i <= j < |run.states| && run.states[i].stopping
    requires forall k :: i <= k < j ==> InClose(PcOf(run.states[k], t))
    ensures run.states[j].stopping
    ensures HelpingSteps(run, t, i, j) + CloseMeasure(run.states[j], t) <= CloseMeasure(run.states[i], t)
    decreases j
  {
    hide Inv, Apply, Enabled, CloseMeasure, Helps, InClose, PcOf;
    if i < j {
      CloseBounded(run, i, j - 1, t);
      InvAlong(run, j - 1);
      assert Taken(run, j - 1);
      CloseMeasureStep(run.states[j - 1], run.actions[j - 1], t);
    }
  }

  // ------------------------------------------------- every Close returns

  /** An unbounded execution: at each moment one step, or none. */
  datatype Execution = Execution(states: nat -> State, actions: nat -> Option<Action>)

  ghost predicate Follows(e: Execution, i: nat) {
    match e.actions(i)
    case None => e.states(i + 1) == e.states(i)
    case Some(a) => Enabled(e.states(i), a) && e.states(i + 1) == Apply(e.states(i), a)
  }

  ghost predicate IsExecution(e: Execution) {
    e.states(0) == START && forall i: nat :: Follows(e, i)
  }

  /** Who takes a step; starting an operation, or a read failing, is the outside's to decide. */
  function Owner(a: Action): Option<Party> {
    match a
    case CallWrite(_, _) => None
    case ReadFails(_) => None
    case CallClose(_) => None
    case CheckWrite(t) => Some(Caller(t))
    case Enqueue(t) => Some(Caller(t))
    case RefuseWrite(t) => Some(Caller(t))
    case Stop(t) => Some(Caller(t))
    case CloseDone(t) => Some(Caller(t))
    case Wait(t) => Some(Caller(t))
    case SwapClosed(t) => Some(Caller(t))
    case CloseHandle(t) => Some(Caller(t))
    case _ => Some(Writer)
  }

  ghost predicate CanMove(s: State, p: Party) {
    exists a :: Owner(a) == Some(p) && Enabled(s, a)
  }

  /** At some moment from `i` on the party takes a step, or cannot. */
  ghost predicate NotStarved(e: Execution, p: Party, i: nat) {
    exists j: nat ::
      i <= j && (!CanMove(e.states(j), p) || (e.actions(j).Some? && Owner(e.actions(j).value) == Some(p)))
  }

  /** Weak fairness: nobody who can always move waits forever. It covers device calls returning. */
  ghost predicate Fair(e: Execution) {
    forall p: Party, i: nat :: NotStarved(e, p, i)
  }

  lemma {:induction false} InvAt(e: Execution, i: nat)
    requires IsExecution(e)
    ensures Inv(e.states(i))
  {
    hide Inv, Enabled, Apply;
    InvAtStart();
    if i > 0 {
      InvAt(e, i - 1);
      assert Follows(e, i - 1);
      if e.actions(i - 1).Some? {
        InvStep(e.states(i - 1), e.actions(i - 1).value);
      }
    }
  }

  /** While a closer waits, either it can go on, or the writer or the one closing `done` can. */
  function NextForWaiter(s: State, t: Thread): Action {
    match s.writer
    case Finished => Wait(t)
    case Leaving => WriterLeave
    case Writing(_) => WriterWrite(true)
    case Failed => WriterStop
    case FailedDone => WriterCloseDone
    case FailedHandle => WriterSwap
    case FailedClosing => WriterCloseHandle
    case Select =>
      if Done(s) || s.doneBy.None? || s.doneBy.value.Writer? then WriterQuit else CloseDone(s.doneBy.value.t)
  }

  /** A step that helps a pending `Close`. */
  function NextHelping(s: State, t: Thread): Action {
    match PcOf(s, t)
    case BeforeStop(_) => Stop(t)
    case ClosingDone(_) => CloseDone(t)
    case BeforeHandle => SwapClosed(t)
    case ClosingHandle => CloseHandle(t)
    case _ => NextForWaiter(s, t)
  }

  /** No pending `Close` is ever stuck: before and after stopping, a helping step is enabled. */
  lemma CloseNeverStuck(s: State, t: Thread)
    requires Inv(s) && InClose(PcOf(s, t))
    ensures var a := NextHelping(s, t);
            Enabled(s, a) && Helps(s, a, t) && Owner(a).Some?
  {
  }

  /** Whoever has a helping step to make makes only helping steps. */
  lemma OwnStepHelps(s: State, a: Action, b: Action, t: Thread)
    requires s.stopping && InClose(PcOf(s, t))
    requires Enabled(s, a) && Helps(s, a, t) && Enabled(s, b) && Owner(a).Some? && Owner(b) == Owner(a)
    ensures Helps(s, b, t)
  {
    hide Apply;
  }

  /** A helping step stays enabled until its own party moves. */
  lemma HelpStays(s: State, a: Action, b: Action, t: Thread)
    requires s.stopping && Enabled(s, a) && Helps(s, a, t) && Owner(a).Some? && Enabled(s, b) && Owner(b) != Owner(a)
    ensures Enabled(Apply(s, b), a) && Helps(Apply(s, b), a, t)
  {
    StoppingStays(s, b);
    if IsWriterAction(a) {
      WriterStepStays(s, a, b);
    } else {
      assert Owner(a) == Some(Caller(a.t));
      ThreadStepStays(s, a, b, a.t);
    }
  }

  lemma WriterStepStays(s: State, a: Action, b: Action)
    requires Enabled(s, a) && IsWriterAction(a) && Enabled(s, b) && !IsWriterAction(b)
    ensures Enabled(Apply(s, b), a)
  {
  }

  lemma ThreadStepStays(s: State, a: Action, b: Action, u: Thread)
    requires Enabled(s, a) && (IsCloserAction(a, u) || a == CloseDone(u))
    requires Enabled(s, b) && Owner(b) != Some(Caller(u))
    ensures Enabled(Apply(s, b), a)
  {
  }

  /** What one moment of an execution does to a pending `Close`. */
  lemma Moment(e: Execution, k: nat, t: Thread, a: Action)
    requires IsExecution(e) && e.states(k).stopping && InClose(PcOf(e.states(k), t))
    requires Enabled(e.states(k), a) && Helps(e.states(k), a, t) && Owner(a).Some?
    ensures var s, s' := e.states(k), e.states(k + 1);
            && s'.stopping && (InClose(PcOf(s', t)) || PcOf(s', t).Returned?)
            && CloseMeasure(s', t) <= CloseMeasure(s, t)
            && (CloseMeasure(s', t) < CloseMeasure(s, t)
                || (InClose(PcOf(s', t)) && Enabled(s', a) && Helps(s', a, t)
                    && (e.actions(k).None? || Owner(e.actions(k).value) != Owner(a))))
  {
    hide Inv, Enabled, Apply, CloseMeasure, Helps, InClose, Owner, PcOf;
    InvAt(e, k);
    assert Follows(e, k);
    if e.actions(k).Some? {
      var b := e.actions(k).value;
      CloseMeasureStep(e.states(k), b, t);
      if Owner(b) == Owner(a) {
        OwnStepHelps(e.states(k), a, b, t);
      } else {
        HelpStays(e.states(k), a, b, t);
      }
    }
  }

  /** Under fairness a pending `Close` comes nearer. */
  lemma Nearer(e: Execution, i: nat, t: Thread) returns (j: nat)
    requires IsExecution(e) && Fair(e) && e.states(i).stopping && InClose(PcOf(e.states(i), t))
    ensures i < j && e.states(j).stopping && (InClose(PcOf(e.states(j), t)) || PcOf(e.states(j), t).Returned?)
    ensures CloseMeasure(e.states(j), t) < CloseMeasure(e.states(i), t)
  {
    hide Inv, Enabled, Apply, CloseMeasure, Helps, InClose, Owner, PcOf, NextHelping, Follows;
    InvAt(e, i);
    var a := NextHelping(e.states(i), t);
    CloseNeverStuck(e.states(i), t);
    assert NotStarved(e, Owner(a).value, i);
    var end: nat :| i <= end && (!CanMove(e.states(end), Owner(a).value)
                                 || (e.actions(end).Some? && Owner(e.actions(end).value) == Some(Owner(a).value)));
    j := i;
    while CloseMeasure(e.states(j), t) == CloseMeasure(e.states(i), t)
      invariant i <= j <= end + 1
      invariant e.states(j).stopping && CloseMeasure(e.states(j), t) <= CloseMeasure(e.states(i), t)
      invariant if CloseMeasure(e.states(j), t) < CloseMeasure(e.states(i), t) then
                  i < j && (InClose(PcOf(e.states(j), t)) || PcOf(e.states(j), t).Returned?)
                else
                  j <= end && InClose(PcOf(e.states(j), t)) && Enabled(e.states(j), a) && Helps(e.states(j), a, t)
      decreases end + 1 - j
    {
      assert CanMove(e.states(j), Owner(a).value);
      Moment(e, j, t, a);
      j := j + 1;
    }
  }

  lemma {:induction false} ReturnsOnceStopping(e: Execution, i: nat, t: Thread) returns (j: nat)
    requires IsExecution(e) && Fair(e) && e.states(i).stopping
    requires InClose(PcOf(e.states(i), t)) || PcOf(e.states(i), t).Returned?
    ensures i <= j && PcOf(e.states(j), t).Returned?
    decreases CloseMeasure(e.states(i), t)
  {
    hide Inv, Enabled, Apply, CloseMeasure, InClose, PcOf, IsExecution, Fair;
    j := i;
    if InClose(PcOf(e.states(i), t)) && !PcOf(e.states(i), t).Returned? {
      j := Nearer(e, i, t);
      j := ReturnsOnceStopping(e, j, t);
    }
  }

  /** A `Close` that finds the device not yet stopping has its own swap to make, until somebody stops it. */
  lemma NotYetStopping(e: Execution, k: nat, t: Thread)
    requires IsExecution(e) && !e.states(k).stopping && InClose(PcOf(e.states(k), t))
    ensures CanMove(e.states(k), Caller(t))
    ensures e.states(k + 1).stopping || (e.actions(k).Some? ==> Owner(e.actions(k).value) != Some(Caller(t)))
    ensures InClose(PcOf(e.states(k + 1), t))
  {
    InvAt(e, k);
    assert Follows(e, k);
    assert PcOf(e.states(k), t).BeforeStop?;
    assert Owner(Stop(t)) == Some(Caller(t)) && Enabled(e.states(k), Stop(t));
  }

  /** Every `Close` returns, in every fair execution, whatever else keeps happening. */
  lemma EveryCloseReturns(e: Execution, i: nat, t: Thread) returns (j: nat)
    requires IsExecution(e) && Fair(e) && InClose(PcOf(e.states(i), t))
    ensures i <= j && PcOf(e.states(j), t).Returned?
  {
    hide Inv, Enabled, Apply, InClose, PcOf, CanMove, Owner, Follows;
    assert NotStarved(e, Caller(t), i);
    var end: nat :| i <= end && (!CanMove(e.states(end), Caller(t))
                                 || (e.actions(end).Some? && Owner(e.actions(end).value) == Some(Caller(t))));
    j := i;
    while j <= end && !e.states(j).stopping
      invariant i <= j <= end + 1
      invariant InClose(PcOf(e.states(j), t))
      invariant j == end + 1 ==> e.states(j).stopping
    {
      NotYetStopping(e, j, t);
      j := j + 1;
    }
    j := ReturnsOnceStopping(e, j, t);
  }
}
