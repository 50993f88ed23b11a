/**
 What the HID device's branches lead to: what stops it, what a failed write ends, what becomes of a `Write`, and
 that every accepted report is written while nothing stops the device.
 */
module DeviceProgress {
  import opened Wrappers
  import opened Protocol
  import opened DeviceShutdown

  // ------------------------------------------------------- what stops the device

  /** A failed physical write, a failed read, or a `Close`. */
  predicate IsCause(a: Action) {
    a == WriterWrite(false) || a.ReadFails? || a.CallClose?
  }

  /** Nobody is on the way to stopping. */
  ghost predicate Undisturbed(s: State) {
    && !s.stopping && (s.writer.Select? || s.writer.Writing?)
    && forall t :: PcOf(s, t).Idle? || PcOf(s, t).Checking? || PcOf(s, t).Offering?
  }

  lemma UndisturbedStep(s: State, a: Action)
    requires Inv(s) && Undisturbed(s) && Enabled(s, a) && !IsCause(a)
    ensures Undisturbed(Apply(s, a))
  {
    var s' := Apply(s, a);
    forall t
      ensures PcOf(s', t).Idle? || PcOf(s', t).Checking? || PcOf(s', t).Offering?
    {
      assert PcOf(s, t).Idle? || PcOf(s, t).Checking? || PcOf(s, t).Offering?;
    }
  }

  lemma UndisturbedAtStart()
    ensures Undisturbed(START)
  {
  }

  lemma {:induction false} NoCauseNoStop(run: Run, i: nat)
    requires IsRun(run) && i < |run.states|
    requires forall k :: 0 <= k < i ==> !IsCause(run.actions[k])
    ensures Undisturbed(run.states[i])
  {
    hide Inv, Enabled, Apply, Undisturbed;
    UndisturbedAtStart();
    if i > 0 {
      NoCauseNoStop(run, i - 1);
      InvAlong(run, i - 1);
      assert Taken(run, i - 1);
      UndisturbedStep(run.states[i - 1], run.actions[i - 1]);
    }
  }

  /** Over every run, the device stops only behind a failed write, a failed read or a `Close`. */
  lemma StopHasCause(run: Run, i: nat)
    requires IsRun(run) && i < |run.states| && run.states[i].stopping
    ensures exists k :: 0 <= k < i && IsCause(run.actions[k])
  {
    if forall k :: 0 <= k < i ==> !IsCause(run.actions[k]) {
      NoCauseNoStop(run, i);
    }
  }

  // ----------------------------------------------------- a failed write is the last

  predicate Ending(pc: WriterPc) {
    !pc.Select? && !pc.Writing?
  }

  lemma EndingStep(s: State, a: Action)
    requires Enabled(s, a) && Ending(s.writer)
    ensures var s' := Apply(s, a);
            Ending(s'.writer) && s'.taken == s.taken && s'.attempted == s.attempted
  {
  }

  lemma {:induction false} EndingStays(run: Run, i: nat, j: nat)
    requires IsRun(run) && i <= j < |run.states| && Ending(run.states[i].writer)
    ensures Ending(run.states[j].writer)
    ensures run.states[j].taken == run.states[i].taken && run.states[j].attempted == run.states[i].attempted
    decreases j
  {
    hide Enabled, Apply, Ending;
    if i < j {
      EndingStays(run, i, j - 1);
      assert Taken(run, j - 1);
      EndingStep(run.states[j - 1], run.actions[j - 1]);
    }
  }

  /** Behind a failed write nothing is taken from the queue and nothing is written, over the rest of the run. */
  lemma FailedWriteIsLast(run: Run, k: nat, j: nat)
    requires IsRun(run) && k < |run.actions| && run.actions[k] == WriterWrite(false) && k < j < |run.states|
    ensures run.states[j].taken == run.states[k].taken
    ensures run.states[k].writer.Writing?
    ensures run.states[j].attempted == run.states[k].attempted + [run.states[k].writer.report]
  {
    assert Taken(run, k);
    EndingStays(run, k + 1, j);
  }

  // ------------------------------------------------------ what becomes of a Write

  /** The call is still to be decided. */
  predicate InWrite(pc: Pc, report: Report) {
    pc == Checking(report) || pc == Offering(report)
  }

  lemma WriteStep(s: State, a: Action, t: Thread, report: Report)
    requires Inv(s) && Enabled(s, a) && InWrite(PcOf(s, t), report)
    ensures var s' := Apply(s, a);
            || InWrite(PcOf(s', t), report)
            || (PcOf(s', t).Idle? && a == Enqueue(t) && s'.accepted == s.accepted + [report])
            || (PcOf(s', t).Idle? && a != Enqueue(t) && s'.stopping)
  {
  }

  /** The report of this call enters the queue at this step. */
  ghost predicate AcceptedAt(run: Run, l: nat, t: Thread, report: Report)
    requires l < |run.actions| && l + 1 < |run.states|
  {
    run.actions[l] == Enqueue(t) && run.states[l + 1].accepted == run.states[l].accepted + [report]
  }

  /**
   A `Write` that returns has had its own report accepted, at its last step, unless the device is stopping: it is
   not refused otherwise.
   */
  lemma WriteOutcome(run: Run, k: nat, m: nat, t: Thread, report: Report)
    requires IsRun(run) && k < m < |run.states| && run.actions[k] == CallWrite(t, report)
    requires PcOf(run.states[m], t).Idle? && forall l :: k < l < m ==> !PcOf(run.states[l], t).Idle?
    ensures AcceptedAt(run, m - 1, t, report) || (run.actions[m - 1] != Enqueue(t) && run.states[m].stopping)
  {
    hide Inv, InWrite, Enabled, Apply;
    assert Taken(run, k);
    CallStarts(run.states[k], t, report);
    StillInWrite(run, k, m - 1, t, report);
    InvAlong(run, m - 1);
    assert Taken(run, m - 1);
    WriteStep(run.states[m - 1], run.actions[m - 1], t, report);
    if InWrite(PcOf(run.states[m], t), report) {
      UndecidedIsBusy(PcOf(run.states[m], t), report);
    }
  }

  lemma CallStarts(s: State, t: Thread, report: Report)
    requires Enabled(s, CallWrite(t, report))
    ensures var pc := PcOf(Apply(s, CallWrite(t, report)), t); InWrite(pc, report) && !pc.Idle?
  {
  }

  lemma UndecidedIsBusy(pc: Pc, report: Report)
    requires InWrite(pc, report)
    ensures !pc.Idle?
  {
  }

  lemma {:induction false} StillInWrite(run: Run, k: nat, m: nat, t: Thread, report: Report)
    requires IsRun(run) && k < m < |run.states| && run.actions[k] == CallWrite(t, report)
    requires forall l :: k < l <= m ==> !PcOf(run.states[l], t).Idle?
    ensures InWrite(PcOf(run.states[m], t), report)
    decreases m
  {
    hide Inv, InWrite, Enabled, Apply;
    assert Taken(run, m - 1);
    if m == k + 1 {
      CallStarts(run.states[k], t, report);
    } else {
      StillInWrite(run, k, m - 1, t, report);
      InvAlong(run, m - 1);
      WriteStep(run.states[m - 1], run.actions[m - 1], t, report);
    }
  }

  /** A `Write` past the check finds room exactly while fewer than 64 reports are accepted and not yet taken. */
  lemma RoomExactly(run: Run, i: nat, t: Thread)
    requires IsRun(run) && i < |run.states| && PcOf(run.states[i], t).Offering?
    ensures |run.states[i].accepted| - |run.states[i].taken| <= 64
    ensures Enabled(run.states[i], Enqueue(t)) <==> |run.states[i].accepted| - |run.states[i].taken| < 64
  {
    hide DoneOk, HandleOk, OrderOk;
    InvAlong(run, i);
  }

  // ---------------------------------------------------- progress, under fairness

  lemma OthersKeepThread(s: State, a: Action, t: Thread)
    requires Enabled(s, a) && Owner(a) != Some(Caller(t)) && !PcOf(s, t).Idle?
    ensures PcOf(Apply(s, a), t) == PcOf(s, t)
  {
  }

  lemma OthersKeepWriter(s: State, a: Action)
    requires Enabled(s, a) && Owner(a) != Some(Writer)
    ensures var s' := Apply(s, a);
            && s'.writer == s.writer && s'.taken == s.taken && s'.attempted == s.attempted
            && s.queue <= s'.queue && (Done(s) ==> Done(s'))
  {
  }

  lemma HistoryGrows(s: State, a: Action)
    requires Enabled(s, a)
    ensures var s' := Apply(s, a); s.accepted <= s'.accepted && (s.stopping ==> s'.stopping)
  {
  }

  lemma {:induction false} HistoryGrowsAlong(e: Execution, i: nat, j: nat)
    requires IsExecution(e) && i <= j
    ensures e.states(i).accepted <= e.states(j).accepted
    ensures e.states(i).stopping ==> e.states(j).stopping
    decreases j
  {
    hide Enabled, Apply;
    if i < j {
      HistoryGrowsAlong(e, i, j - 1);
      assert Follows(e, j - 1);
      if e.actions(j - 1).Some? {
        HistoryGrows(e.states(j - 1), e.actions(j - 1).value);
      }
    }
  }

  /** The party takes its step at `j`. */
  ghost predicate StepsAt(e: Execution, p: Party, j: nat) {
    e.actions(j).Some? && Owner(e.actions(j).value) == Some(p)
  }

  predicate Stopper(pc: Pc) {
    pc.BeforeStop? || pc.ClosingDone?
  }

  lemma StopperCanMove(s: State, t: Thread)
    requires Stopper(PcOf(s, t))
    ensures CanMove(s, Caller(t))
  {
    if PcOf(s, t).BeforeStop? {
      assert Owner(Stop(t)) == Some(Caller(t)) && Enabled(s, Stop(t));
    } else {
      assert Owner(CloseDone(t)) == Some(Caller(t)) && Enabled(s, CloseDone(t));
    }
  }

  /** A thread inside stop() makes its next step. */
  lemma StopperMoves(e: Execution, i: nat, t: Thread) returns (j: nat)
    requires IsExecution(e) && Fair(e) && Stopper(PcOf(e.states(i), t))
    ensures i <= j && StepsAt(e, Caller(t), j) && PcOf(e.states(j), t) == PcOf(e.states(i), t)
  {
    hide Inv, Enabled, Apply, CanMove, Owner, Follows;
    assert NotStarved(e, Caller(t), i);
    var end: nat :| i <= end && (!CanMove(e.states(end), Caller(t)) || StepsAt(e, Caller(t), end));
    j := i;
    StopperCanMove(e.states(j), t);
    while !StepsAt(e, Caller(t), j)
      invariant i <= j <= end && PcOf(e.states(j), t) == PcOf(e.states(i), t)
      invariant CanMove(e.states(j), Caller(t))
      decreases end - j
    {
      ThreadWaits(e, j, t);
      j := j + 1;
      StopperCanMove(e.states(j), t);
    }
  }

  lemma ThreadWaits(e: Execution, j: nat, t: Thread)
    requires IsExecution(e) && !StepsAt(e, Caller(t), j) && !PcOf(e.states(j), t).Idle?
    ensures PcOf(e.states(j + 1), t) == PcOf(e.states(j), t)
  {
    hide Enabled, Apply;
    assert Follows(e, j);
    if e.actions(j).Some? {
      OthersKeepThread(e.states(j), e.actions(j).value, t);
    }
  }

  /** The writer has something to do. */
  predicate WriterBusy(s: State) {
    !s.writer.Finished? && (s.writer.Select? ==> s.queue != [] || Done(s))
  }

  lemma WriterCanMove(s: State)
    requires WriterBusy(s)
    ensures CanMove(s, Writer)
  {
    var a := match s.writer
      case Select => if Done(s) then WriterQuit else WriterTake
      case Writing(_) => WriterWrite(true)
      case Failed => WriterStop
      case FailedDone => WriterCloseDone
      case FailedHandle => WriterSwap
      case FailedClosing => WriterCloseHandle
      case Leaving => WriterLeave
      case Finished => WriterLeave;
    assert Owner(a) == Some(Writer) && Enabled(s, a);
  }

  lemma WriterWaits(e: Execution, j: nat)
    requires IsExecution(e) && !StepsAt(e, Writer, j) && WriterBusy(e.states(j))
    ensures var s, s' := e.states(j), e.states(j + 1);
            s'.writer == s.writer && s'.attempted == s.attempted && WriterBusy(s')
  {
    hide Enabled, Apply;
    assert Follows(e, j);
    if e.actions(j).Some? {
      OthersKeepWriter(e.states(j), e.actions(j).value);
    }
  }

  /** A writer with something to do makes its next step. */
  lemma WriterMoves(e: Execution, i: nat) returns (j: nat)
    requires IsExecution(e) && Fair(e) && WriterBusy(e.states(i))
    ensures i <= j && StepsAt(e, Writer, j)
    ensures e.states(j).writer == e.states(i).writer && e.states(j).attempted == e.states(i).attempted
  {
    hide Inv, Enabled, Apply, CanMove, Owner, Follows, WriterBusy;
    assert NotStarved(e, Writer, i);
    var end: nat :| i <= end && (!CanMove(e.states(end), Writer) || StepsAt(e, Writer, end));
    j := i;
    WriterCanMove(e.states(j));
    while !StepsAt(e, Writer, j)
      invariant i <= j <= end && WriterBusy(e.states(j)) && CanMove(e.states(j), Writer)
      invariant e.states(j).writer == e.states(i).writer && e.states(j).attempted == e.states(i).attempted
      decreases end - j
    {
      WriterWaits(e, j);
      j := j + 1;
      WriterCanMove(e.states(j));
    }
  }

  /** What the writer's next step does while nothing stops the device. */
  lemma WriterStep(s: State, a: Action)
    requires Inv(s) && Enabled(s, a) && Owner(a) == Some(Writer) && !Apply(s, a).stopping
    ensures var s' := Apply(s, a);
            || (s.writer.Select? && s'.writer.Writing? && s'.attempted == s.attempted)
            || (s.writer.Writing? && |s'.attempted| == |s.attempted| + 1)
  {
  }

  /** Not stopping, the writer either works or has just failed to write; with reports open it is busy. */
  lemma OpenReports(s: State)
    requires Inv(s) && |s.attempted| < |s.accepted|
    ensures s.writer.Select? ==> WriterBusy(s)
    ensures !s.stopping ==> WriterBusy(s) && (s.writer.Select? || s.writer.Writing? || s.writer.Failed?)
  {
  }

  lemma {:induction false} AttemptedUpTo(e: Execution, i: nat, n: nat) returns (j: nat)
    requires IsExecution(e) && Fair(e) && n <= |e.states(i).accepted|
    ensures i <= j && (e.states(j).stopping || n <= |e.states(j).attempted|)
    decreases n - |e.states(i).attempted|, if e.states(i).writer.Select? then 1 else 0
  {
    hide Inv, Enabled, Apply, Owner, Fair, WriterBusy, IsExecution;
    j := i;
    if !e.states(i).stopping && |e.states(i).attempted| < n {
      InvAt(e, i);
      OpenReports(e.states(i));
      j := WriterMoves(e, i);
      assert Follows(e, j) by { ExecutionFollows(e, j); }
      InvAt(e, j);
      HistoryGrowsAlong(e, i, j + 1);
      if !e.states(j + 1).stopping {
        WriterStep(e.states(j), e.actions(j).value);
        j := AttemptedUpTo(e, j + 1, n);
      } else {
        j := j + 1;
      }
    }
  }

  lemma ExecutionFollows(e: Execution, i: nat)
    requires IsExecution(e)
    ensures Follows(e, i)
  {
  }

  /** Every accepted report is handed to the physical write, in order, unless something stops the device first. */
  lemma EveryReportWritten(e: Execution, i: nat) returns (j: nat)
    requires IsExecution(e) && Fair(e)
    ensures i <= j && (e.states(j).stopping || e.states(i).accepted <= e.states(j).attempted)
  {
    hide Enabled, Apply, Fair, IsExecution;
    j := AttemptedUpTo(e, i, |e.states(i).accepted|);
    InvAt(e, j);
    HistoryGrowsAlong(e, i, j);
  }

  /** The outside, or a physical write, gives a reason to stop at this moment. */
  ghost predicate CauseAt(e: Execution, k: nat) {
    e.actions(k).Some? && IsCause(e.actions(k).value)
  }

  lemma {:induction false} NoCauseYet(e: Execution, i: nat)
    requires IsExecution(e) && forall k: nat :: k < i ==> !CauseAt(e, k)
    ensures Undisturbed(e.states(i))
  {
    hide Inv, Enabled, Apply, Undisturbed;
    UndisturbedAtStart();
    if i > 0 {
      NoCauseYet(e, i - 1);
      InvAt(e, i - 1);
      assert Follows(e, i - 1) && !CauseAt(e, i - 1);
      if e.actions(i - 1).Some? {
        UndisturbedStep(e.states(i - 1), e.actions(i - 1).value);
      }
    }
  }

  /** What a cause leaves behind: a failed writer, or a thread about to stop. */
  lemma CauseLeads(s: State, a: Action)
    requires Enabled(s, a) && IsCause(a)
    ensures a == WriterWrite(false) || a.ReadFails? || a.CallClose?
    ensures var s' := Apply(s, a);
            if a == WriterWrite(false) then s'.writer.Failed? else PcOf(s', a.t).BeforeStop?
  {
  }

  lemma StopStops(s: State, a: Action, t: Thread)
    requires Enabled(s, a)
    requires (s.writer.Failed? && Owner(a) == Some(Writer)) || (PcOf(s, t).BeforeStop? && Owner(a) == Some(Caller(t)))
    ensures Apply(s, a).stopping
  {
  }

  /** Each cause stops the device. */
  lemma CauseStops(e: Execution, k: nat) returns (j: nat)
    requires IsExecution(e) && Fair(e) && CauseAt(e, k)
    ensures k < j && e.states(j).stopping
  {
    hide Inv, Enabled, Apply, Owner, Fair, IsExecution, IsCause;
    var a := e.actions(k).value;
    ExecutionFollows(e, k);
    CauseLeads(e.states(k), a);
    if a == WriterWrite(false) {
      j := WriterMoves(e, k + 1);
      ExecutionFollows(e, j);
      StopStops(e.states(j), e.actions(j).value, 0);
    } else {
      j := StopperMoves(e, k + 1, a.t);
      ExecutionFollows(e, j);
      StopStops(e.states(j), e.actions(j).value, a.t);
    }
    j := j + 1;
  }

  /** In every fair execution the device stops if and only if a write fails, a read fails or somebody calls `Close`. */
  lemma StopsExactly(e: Execution)
    requires IsExecution(e) && Fair(e)
    ensures (exists i: nat :: e.states(i).stopping) <==> (exists k: nat :: CauseAt(e, k))
  {
    hide IsExecution, Fair, CauseAt;
    if k: nat :| CauseAt(e, k) {
      var j := CauseStops(e, k);
      assert e.states(j).stopping;
    } else {
      forall i: nat
        ensures !e.states(i).stopping
      {
        NoCauseYet(e, i);
      }
    }
  }

  // ------------------------------------------------------------------ a failed read

  lemma ReadStep(s: State, a: Action, t: Thread)
    requires Enabled(s, a) && Owner(a) == Some(Caller(t))
    requires PcOf(s, t) == BeforeStop(false) || PcOf(s, t) == ClosingDone(false)
    ensures var pc' := PcOf(Apply(s, a), t); pc'.Idle? || (PcOf(s, t).BeforeStop? && pc' == ClosingDone(false))
  {
  }

  /** A read that fails stops the device and returns to its caller; it neither waits for the writer nor closes. */
  lemma {:induction false} FailedReadReturns(e: Execution, i: nat, t: Thread) returns (j: nat)
    requires IsExecution(e) && Fair(e)
    requires PcOf(e.states(i), t) == BeforeStop(false) || PcOf(e.states(i), t) == ClosingDone(false)
    ensures i < j && PcOf(e.states(j), t).Idle?
    decreases if PcOf(e.states(i), t).BeforeStop? then 1 else 0
  {
    hide Inv, Enabled, Apply, Owner, Fair, IsExecution, PcOf;
    j := StopperMoves(e, i, t);
    ExecutionFollows(e, j);
    ReadStep(e.states(j), e.actions(j).value, t);
    if PcOf(e.states(j + 1), t).Idle? {
      j := j + 1;
    } else {
      j := FailedReadReturns(e, j + 1, t);
    }
  }

  lemma CloseStep(s: State, a: Action, t: Thread)
    requires Enabled(s, a) && a != CallClose(t) && !InClose(PcOf(s, t)) && !PcOf(s, t).Returned?
    ensures !InClose(PcOf(Apply(s, a), t)) && !PcOf(Apply(s, a), t).Returned?
  {
  }

  /** Only a thread that has called `Close` is ever inside it: no `Read` or `Write` reaches the handle. */
  lemma {:induction false} OnlyCloseCloses(run: Run, i: nat, t: Thread)
    requires IsRun(run) && i < |run.states| && (InClose(PcOf(run.states[i], t)) || PcOf(run.states[i], t).Returned?)
    ensures exists k :: 0 <= k < i && run.actions[k] == CallClose(t)
  {
    hide Enabled, Apply, InClose;
    if i == 0 {
      CloseAtStart(t);
    } else {
      assert Taken(run, i - 1);
      if run.actions[i - 1] != CallClose(t) {
        if InClose(PcOf(run.states[i - 1], t)) || PcOf(run.states[i - 1], t).Returned? {
          OnlyCloseCloses(run, i - 1, t);
        } else {
          CloseStep(run.states[i - 1], run.actions[i - 1], t);
        }
      }
    }
  }

  lemma CloseAtStart(t: Thread)
    ensures !InClose(PcOf(START, t)) && !PcOf(START, t).Returned?
  {
  }

  // ------------------------------------------------------------- how the writer ends

  /** The writer has failed to write and not yet closed the handle. */
  predicate Failing(pc: WriterPc) {
    pc.Failed? || pc.FailedDone? || pc.FailedHandle? || pc.FailedClosing?
  }

  lemma FailingStep(s: State, a: Action)
    requires Inv(s) && Enabled(s, a) && Owner(a) == Some(Writer) && Failing(s.writer)
    ensures var s' := Apply(s, a);
            if Failing(s'.writer) then WriterRank(s'.writer) < WriterRank(s.writer)
            else s'.writer.Leaving? && s'.handleCloses == 1
  {
  }

  /** A writer that failed to write closes the handle itself, whether or not anybody calls `Close`. */
  lemma {:induction false} FailedWriterCloses(e: Execution, i: nat) returns (j: nat)
    requires IsExecution(e) && Fair(e) && Failing(e.states(i).writer)
    ensures i < j && e.states(j).writer.Leaving? && e.states(j).handleCloses == 1
    decreases WriterRank(e.states(i).writer)
  {
    hide Inv, Enabled, Apply, Owner, Fair, IsExecution, Failing, WriterRank;
    FailingIsBusy(e.states(i));
    j := WriterMoves(e, i);
    ExecutionFollows(e, j);
    InvAt(e, j);
    FailingStep(e.states(j), e.actions(j).value);
    if Failing(e.states(j + 1).writer) {
      j := FailedWriterCloses(e, j + 1);
    } else {
      j := j + 1;
    }
  }

  lemma FailingIsBusy(s: State)
    requires Failing(s.writer)
    ensures WriterBusy(s)
  {
  }

  lemma DoneByWhom(s: State)
    requires Inv(s) && s.stopping && !Done(s)
    ensures s.doneBy.Some?
    ensures match s.doneBy.value
            case Writer => s.writer.FailedDone? && WriterBusy(s)
            case Caller(t) => PcOf(s, t).ClosingDone?
  {
  }

  lemma ClosesDone(s: State, a: Action, p: Party)
    requires Enabled(s, a) && Owner(a) == Some(p)
    requires match p case Writer => s.writer.FailedDone? case Caller(t) => PcOf(s, t).ClosingDone?
    ensures Done(Apply(s, a))
  {
  }

  /** Whoever stops the device also closes `done`. */
  lemma DoneCloses(e: Execution, i: nat) returns (j: nat)
    requires IsExecution(e) && Fair(e) && e.states(i).stopping
    ensures i <= j && Done(e.states(j))
  {
    hide Inv, Enabled, Apply, Owner, Fair, IsExecution, Done;
    j := i;
    InvAt(e, i);
    if !Done(e.states(i)) {
      DoneByWhom(e.states(i));
      match e.states(i).doneBy.value {
        case Writer => j := WriterMoves(e, i);
        case Caller(t) => j := StopperMoves(e, i, t);
      }
      ExecutionFollows(e, j);
      ClosesDone(e.states(j), e.actions(j).value, e.states(i).doneBy.value);
      j := j + 1;
    }
  }

  lemma DoneStays(s: State, a: Action)
    requires Enabled(s, a) && Done(s)
    ensures Done(Apply(s, a))
  {
  }

  lemma {:induction false} RankAlong(e: Execution, i: nat, j: nat)
    requires IsExecution(e) && i <= j && e.states(i).stopping && Done(e.states(i))
    ensures e.states(j).stopping && Done(e.states(j)) && ShutdownRank(e.states(j)) <= ShutdownRank(e.states(i))
    decreases j
  {
    hide Inv, Enabled, Apply, ShutdownRank, Done, IsWriterAction;
    if i < j {
      RankAlong(e, i, j - 1);
      InvAt(e, j - 1);
      HistoryGrowsAlong(e, i, j);
      assert Follows(e, j - 1);
      if e.actions(j - 1).Some? {
        DoneStays(e.states(j - 1), e.actions(j - 1).value);
        RankStep(e.states(j - 1), e.actions(j - 1).value);
      }
    }
  }

  lemma DoneIsBusy(s: State)
    requires Done(s) && !s.writer.Finished?
    ensures WriterBusy(s)
  {
  }

  lemma WriterOwns(a: Action)
    ensures Owner(a) == Some(Writer) <==> IsWriterAction(a)
  {
  }

  lemma {:induction false} EndsOnceDone(e: Execution, i: nat) returns (j: nat)
    requires IsExecution(e) && Fair(e) && e.states(i).stopping && Done(e.states(i))
    ensures i <= j && e.states(j).writer.Finished?
    decreases ShutdownRank(e.states(i))
  {
    hide Inv, Enabled, Apply, ShutdownRank, Done, IsWriterAction, Owner, Fair, IsExecution;
    j := i;
    if !e.states(i).writer.Finished? {
      DoneIsBusy(e.states(i));
      j := WriterMoves(e, i);
      RankAlong(e, i, j);
      InvAt(e, j);
      ExecutionFollows(e, j);
      WriterOwns(e.actions(j).value);
      RankStep(e.states(j), e.actions(j).value);
      RankAlong(e, i, j + 1);
      j := EndsOnceDone(e, j + 1);
    }
  }

  /** Once the device stops, for whatever cause, the writer loop ends. */
  lemma WriterEnds(e: Execution, i: nat) returns (j: nat)
    requires IsExecution(e) && Fair(e) && e.states(i).stopping
    ensures i <= j && e.states(j).writer.Finished?
  {
    hide Fair, IsExecution, Done;
    j := DoneCloses(e, i);
    HistoryGrowsAlong(e, i, j);
    j := EndsOnceDone(e, j);
  }

  // -------------------------------------------------------- every call goes to its end

  /** How far a thread is from the end of its call. */
  function CallRank(pc: Pc): nat {
    match pc
    case BeforeStop(_) => 5
    case ClosingDone(_) => 4
    case Waiting => 3
    case Checking(_) => 2
    case BeforeHandle => 2
    case Offering(_) => 1
    case ClosingHandle => 1
    case Idle => 0
    case Returned => 0
  }

  /** Each step of its own brings a call closer to its end, and no other step touches it. */
  lemma CallDescends(s: State, a: Action, t: Thread)
    requires Enabled(s, a) && !PcOf(s, t).Idle?
    ensures var pc, pc' := PcOf(s, t), PcOf(Apply(s, a), t);
            if Owner(a) == Some(Caller(t)) then CallRank(pc') < CallRank(pc) else pc' == pc
  {
  }

  /** How many steps the thread takes from `i` up to `j`. */
  function OwnSteps(actions: seq<Action>, t: Thread, i: nat, j: nat): nat
    requires i <= j <= |actions|
  {
    if i == j then 0 else OwnSteps(actions, t, i, j - 1) + if Owner(actions[j - 1]) == Some(Caller(t)) then 1 else 0
  }

  /** A call takes no more steps of its own than its rank says: a `Write` two, a `Close` five, whatever interleaves. */
  lemma {:induction false} CallBounded(run: Run, i: nat, j: nat, t: Thread)
    requires IsRun(run) && i <= j < |run.states| && forall l :: i <= l < j ==> !PcOf(run.states[l], t).Idle?
    ensures OwnSteps(run.actions, t, i, j) + CallRank(PcOf(run.states[j], t)) <= CallRank(PcOf(run.states[i], t))
    decreases j
  {
    hide Enabled, Apply, PcOf, CallRank, Owner;
    if i < j {
      CallBounded(run, i, j - 1, t);
      assert Taken(run, j - 1);
      CallDescends(run.states[j - 1], run.actions[j - 1], t);
    }
  }
}
