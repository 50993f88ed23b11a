/** Over whole runs: what the service reports while no session is up, the delay it keeps, and handles once closed. */
module ServiceRetry {
  import opened Wrappers
  import opened Service
  import Session
  import Link

  // ------------------------------------------------------------ the failure shown

  /** The failure this step stores: no device, a version that is not 0.1 or not told, a session that ended. */
  function Stored(a: Action): Option<Failure> {
    match a
    case OpenFails => Some(OpenFailed)
    case VerifyFails => Some(VersionRejected)
    case DoStoreError => Some(ReadFailed)
    case _ => None
  }

  /** An attempt to come up ends: it fails, or its session is verified and about to be published. */
  predicate EndsAttempt(a: Action) {
    a.OpenFails? || a.VerifyFails? || a.DoClearError?
  }

  /** No session is up, and this was the last failure. */
  predicate Down(s: State, failure: Option<Failure>) {
    && s.lastErr == failure
    && !(InfoStored(s.pc) && !s.pc.ClearError?) && !s.pc.StoreError?
  }

  lemma DownStays(s: State, a: Action, failure: Option<Failure>)
    requires Enabled(s, a) && Down(s, failure) && !EndsAttempt(a)
    ensures Down(Apply(s, a), failure)
  {
    hide Link.Apply, Link.Enabled, Accepted, Serving;
  }

  lemma StoredIsDown(s: State, a: Action)
    requires Enabled(s, a) && Stored(a).Some?
    ensures Down(Apply(s, a), Stored(a))
  {
    hide Accepted;
  }

  lemma DownIsInactive(s: State, failure: Option<Failure>)
    requires Inv(s) && Down(s, failure)
    ensures s.active == None
  {
  }

  lemma {:induction false} DownAlong(run: Run, k: nat, j: nat, failure: Option<Failure>)
    requires IsRun(run) && k <= j < |run.states| && Down(run.states[k], failure)
    requires forall m :: k <= m < j ==> !EndsAttempt(run.actions[m])
    ensures Down(run.states[j], failure)
    decreases j
  {
    hide Down, EndsAttempt, Apply, Enabled;
    if k < j {
      DownAlong(run, k, j - 1, failure);
      assert Taken(run, j - 1);
      DownStays(run.states[j - 1], run.actions[j - 1], failure);
    }
  }

  /**
   After a failed attempt, and after the end of a session, `Err` gives that failure until the next attempt ends,
   wherever in that stretch it loads the active session and then the last failure.
   */
  lemma ErrNamesFailure(run: Run, k: nat, g: nat, j: nat)
    requires IsRun(run) && k < g <= j < |run.states| && Stored(run.actions[k]).Some?
    requires forall m :: k < m < j ==> !EndsAttempt(run.actions[m])
    ensures Service.Err(run.states[g].active, run.states[j]) == Stored(run.actions[k])
  {
    hide Inv, Down, EndsAttempt, Apply, Enabled, Stored;
    assert Taken(run, k);
    StoredIsDown(run.states[k], run.actions[k]);
    DownAlong(run, k + 1, g, Stored(run.actions[k]));
    DownAlong(run, g, j, Stored(run.actions[k]));
    InvAlong(run, g);
    DownIsInactive(run.states[g], Stored(run.actions[k]));
    DownTells(run.states[j], Stored(run.actions[k]));
  }

  lemma DownTells(s: State, failure: Option<Failure>)
    requires Down(s, failure)
    ensures s.lastErr == failure
  {
  }

  lemma StartIsDown()
    ensures Down(START, None)
  {
  }

  /** Until the first attempt has ended, `Err` says that there is no connection. */
  lemma ErrBeforeFirst(run: Run, g: nat, j: nat)
    requires IsRun(run) && g <= j < |run.states| && forall m :: 0 <= m < j ==> !EndsAttempt(run.actions[m])
    ensures Service.Err(run.states[g].active, run.states[j]) == Some(Disconnected)
  {
    hide Inv, Down, EndsAttempt, Apply, Enabled;
    StartIsDown();
    DownAlong(run, 0, g, None);
    DownAlong(run, g, j, None);
    InvAlong(run, g);
    DownIsInactive(run.states[g], None);
    DownTells(run.states[j], None);
  }

  // -------------------------------------------------------------------- the delay

  lemma TopByTimer(s: State, a: Action)
    requires Enabled(s, a) && !s.pc.Top? && a != TimerFires
    ensures !Apply(s, a).pc.Top?
  {
    hide Link.Apply, Link.Enabled, Accepted, Serving;
  }

  lemma {:induction false} NotAtTop(run: Run, i: nat, j: nat)
    requires IsRun(run) && i <= j < |run.states| && !run.states[i].pc.Top?
    requires forall k :: i <= k < j ==> run.actions[k] != TimerFires
    ensures !run.states[j].pc.Top?
    decreases j
  {
    hide Apply, Enabled;
    if i < j {
      NotAtTop(run, i, j - 1);
      assert Taken(run, j - 1);
      TopByTimer(run.states[j - 1], run.actions[j - 1]);
    }
  }

  lemma StartLeavesTop(s: State)
    requires Enabled(s, StartOpen)
    ensures s.pc.Top? && !Apply(s, StartOpen).pc.Top?
  {
  }

  /** Between any two attempts to open a device the retry delay has passed, whatever became of the first. */
  lemma DelayBetweenAttempts(run: Run, i: nat, j: nat)
    requires IsRun(run) && i < j < |run.actions| && run.actions[i] == StartOpen && run.actions[j] == StartOpen
    ensures exists k :: i < k < j && run.actions[k] == TimerFires
  {
    hide Apply, Enabled;
    assert Taken(run, i) && Taken(run, j);
    StartLeavesTop(run.states[i]);
    StartLeavesTop(run.states[j]);
    if forall k :: i < k < j ==> run.actions[k] != TimerFires {
      NotAtTop(run, i + 1, j);
    }
  }

  // ------------------------------------------------------------------- the handles

  /** This step closes the handle of this transport: one of `run`, of a `Close` caller, or of the device's writer. */
  predicate ClosesHandle(s: State, a: Action, id: Id) {
    || a == WriterCloses(id)
    || (a.DoClose? && Current(s.pc) == Some(id))
    || (a.CloseHandle? && CloserOf(s, a.t) == CloserPc.Closing(id))
  }

  lemma TouchedHandle(s: State, a: Action, id: Id)
    requires HandlesOk(s) && Enabled(s, a) && id < |s.connections|
    requires a.OpenSucceeds? || a.DoCommit? || a.DoClose? || a.CommitHandle? || a.CloseHandle? || a.WriterCloses?
    ensures id < |Apply(s, a).connections|
    ensures Apply(s, a).connections[id].handle.Closed? <==> s.connections[id].handle.Closed? || ClosesHandle(s, a, id)
  {
    hide Link.Apply, Link.Enabled, Accepted;
    assert HandleOk(s, id);
  }

  lemma HandleStep(s: State, a: Action, id: Id)
    requires HandlesOk(s) && Enabled(s, a) && id < |s.connections|
    ensures id < |Apply(s, a).connections|
    ensures Apply(s, a).connections[id].handle.Closed? <==> s.connections[id].handle.Closed? || ClosesHandle(s, a, id)
  {
    hide Apply, Enabled, HandlesOk, CloserOf;
    if a.OpenSucceeds? || a.DoCommit? || a.DoClose? || a.CommitHandle? || a.CloseHandle? || a.WriterCloses? {
      TouchedHandle(s, a, id);
    } else if IsSupervisorAction(a) {
      HandlesUntouched(s, a);
    } else {
      OthersUntouched(s, a);
    }
  }

  lemma InvHandles(s: State)
    requires Inv(s)
    ensures HandlesOk(s)
  {
  }

  /** A handle is closed by such a step and no other, and stays closed. */
  lemma {:induction false} ClosedExactly(run: Run, i: nat, j: nat, id: Id)
    requires IsRun(run) && i <= j < |run.states| && id < |run.states[i].connections|
    ensures id < |run.states[j].connections|
    ensures run.states[j].connections[id].handle.Closed?
       <==> run.states[i].connections[id].handle.Closed?
            || exists k :: i <= k < j && ClosesHandle(run.states[k], run.actions[k], id)
    decreases j
  {
    hide Inv, HandlesOk, Apply, Enabled, ClosesHandle;
    if i < j {
      ClosedExactly(run, i, j - 1, id);
      InvAlong(run, j - 1);
      InvHandles(run.states[j - 1]);
      assert Taken(run, j - 1);
      HandleStep(run.states[j - 1], run.actions[j - 1], id);
    }
  }
}
