/**
 The connection supervisor: one `run` goroutine that opens, verifies, serves and retries, among any number
 of `Close` callers and the read loops of the sessions it starts, one operation of the code per step. Closing
 a device takes two: the swap that commits one party to it, and the closing of the handle.
 */
module Service {
  import opened Wrappers
  import opened Protocol
  import Caller
  import CallerRaces
  import Session
  import Link

  type Thread = nat
  type Id = nat

  /** The identity the device enumeration reports. */
  datatype DeviceInfo = DeviceInfo(path: string, serial: string)

  datatype Failure = OpenFailed | VersionRejected | ReadFailed | Disconnected

  datatype Party = Supervisor | Reader(id: Id) | Closer(t: Thread)

  /** A transport's handle; the party named has won the swap and is about to close it. */
  datatype Handle = Open | Committed(holder: Party) | Closed

  /** One opened transport and the session over it. */
  datatype Connection = Connection(info: DeviceInfo, handle: Handle, link: Link.State)

  predicate Ended(c: Connection) {
    c.link.loop.done
  }

  /** Why `run` closes a session: its version was refused, the context is done, or it has ended. */
  datatype Why = Rejected | Cancelled | Final

  /** Where `run` stands. */
  datatype Pc =
    | Top                           // about to look at the context
    | Opening
    | Registering(id: Id)           // in VerifyVersion: allocating the call,
    | Asking(id: Id)                // sending the request,
    | Awaiting(id: Id)              // waiting for the answer,
    | Judging(id: Id)               // looking at it
    | StoreInfo(id: Id)
    | ClearError(id: Id)
    | StoreActive(id: Id)
    | Online(id: Id)                // waiting for the session's end or the context
    | Committing(id: Id, why: Why)  // in Close of the session, about to swap the device's `closed`
    | Closing(id: Id, why: Why)     // won the swap, about to close the handle
    | Draining(id: Id, why: Why)    // waiting for the read loop to end
    | DropActive(id: Id)
    | DropInfo(id: Id)
    | StoreError(id: Id)
    | Retry                         // in waitRetry, about to look at the context
    | RetryWait                     // in its select
    | Exited                        // returned, `stopped` closed

  /** Where a caller of the service's `Close` stands. */
  datatype CloserPc =
    | Idle
    | Swapping                      // about to swap the service's `closed`
    | Cancelling
    | Loading
    | Committing(id: Id)            // in Close of the session it loaded, about to swap
    | Closing(id: Id)               // won that swap, about to close the handle
    | Waiting
    | Returned

  /** `closedBy` names the `Close` caller that won the swap of the service's `closed`. */
  datatype State = State(
    pc: Pc, connections: seq<Connection>, active: Option<Id>, deviceInfo: Option<DeviceInfo>,
    lastErr: Option<Failure>, cancelled: bool, closedBy: Option<Thread>, closers: map<Thread, CloserPc>)

  const START := State(Top, [], None, None, None, false, None, map[])

  function CloserOf(s: State, t: Thread): CloserPc {
    if t in s.closers then s.closers[t] else Idle
  }

  /** The connection `run` is dealing with, if any. */
  function Current(pc: Pc): Option<Id> {
    match pc
    case Top => None
    case Opening => None
    case Retry => None
    case RetryWait => None
    case Exited => None
    case _ => Some(pc.id)
  }

  datatype Action =
    | SeeCancelledTop
    | StartOpen
    | OpenFails
    | OpenSucceeds(info: DeviceInfo)
    | DoAllocate
    | DoAsk
    | DoTake
    | VerifySucceeds
    | VerifyFails
    | DoStoreInfo
    | DoClearError
    | DoStoreActive
    | SeeEnded
    | SeeCancelled
    | DoCommit
    | DoClose
    | SeeDrained
    | DoDropActive
    | DoDropInfo
    | DoStoreError
    | RetryCancelled
    | RetryWaits
    | TimerFires
    | WaitCancelled
    | LinkMoves(id: Id, step: Link.Action)
    | WriterCloses(id: Id)
    | CallClose(t: Thread)
    | SwapClosed(t: Thread)
    | Cancel(t: Thread)
    | LoadActive(t: Thread)
    | CommitHandle(t: Thread)
    | CloseHandle(t: Thread)
    | AwaitStopped(t: Thread)

  /** The thread whose `Close` of the service a step belongs to. */
  function CloserIn(a: Action): Option<Thread> {
    match a
    case CallClose(t) => Some(t)
    case SwapClosed(t) => Some(t)
    case Cancel(t) => Some(t)
    case LoadActive(t) => Some(t)
    case CommitHandle(t) => Some(t)
    case CloseHandle(t) => Some(t)
    case AwaitStopped(t) => Some(t)
    case _ => None
  }

  predicate IsSupervisorAction(a: Action) {
    CloserIn(a).None? && !a.LinkMoves? && !a.WriterCloses?
  }

  /** `run` deals with a connection there is. */
  predicate Serving(s: State) {
    Current(s.pc).Some? && Current(s.pc).value < |s.connections|
  }

  /** The step of the session's verifier that `run` takes. */
  function VerifierStep(a: Action): Link.Action {
    match a
    case DoAllocate => Link.Allocate
    case DoAsk => Link.Ask
    case _ => Link.Take
  }

  predicate Enabled(s: State, a: Action) {
    match a
    case SeeCancelledTop => s.pc.Top? && s.cancelled
    case StartOpen => s.pc.Top? && !s.cancelled
    case OpenFails => s.pc.Opening?
    case OpenSucceeds(_) => s.pc.Opening?
    case DoAllocate => s.pc.Registering? && Serving(s) && Link.Enabled(s.connections[s.pc.id].link, Link.Allocate)
    case DoAsk => s.pc.Asking? && Serving(s) && Link.Enabled(s.connections[s.pc.id].link, Link.Ask)
    case DoTake => s.pc.Awaiting? && Serving(s) && Link.Enabled(s.connections[s.pc.id].link, Link.Take)
    case VerifySucceeds => s.pc.Judging? && Serving(s) && Accepted(s.connections[s.pc.id].link)
    case VerifyFails =>
      s.pc.Registering? || s.pc.Asking? || s.pc.Awaiting?
      || (s.pc.Judging? && Serving(s) && !Accepted(s.connections[s.pc.id].link))
    case DoStoreInfo => s.pc.StoreInfo? && Serving(s)
    case DoClearError => s.pc.ClearError?
    case DoStoreActive => s.pc.StoreActive?
    case SeeEnded => s.pc.Online? && Serving(s) && Ended(s.connections[s.pc.id])
    case SeeCancelled => s.pc.Online? && s.cancelled
    case DoCommit => s.pc.Committing? && Serving(s)
    case DoClose => s.pc.Closing? && Serving(s)
    case SeeDrained => s.pc.Draining? && Serving(s) && Ended(s.connections[s.pc.id])
    case DoDropActive => s.pc.DropActive?
    case DoDropInfo => s.pc.DropInfo?
    case DoStoreError => s.pc.StoreError?
    case RetryCancelled => s.pc.Retry? && s.cancelled
    case RetryWaits => s.pc.Retry? && !s.cancelled
    case TimerFires => s.pc.RetryWait?
    case WaitCancelled => s.pc.RetryWait? && s.cancelled
    case LinkMoves(id, step) =>
      id < |s.connections| && !Link.IsVerifierAction(step) && Link.Enabled(s.connections[id].link, step)
    case WriterCloses(id) => id < |s.connections| && s.connections[id].handle.Open?
    case CallClose(t) => CloserOf(s, t).Idle?
    case SwapClosed(t) => CloserOf(s, t).Swapping?
    case Cancel(t) => CloserOf(s, t).Cancelling?
    case LoadActive(t) => CloserOf(s, t).Loading?
    case CommitHandle(t) => CloserOf(s, t).Committing? && CloserOf(s, t).id < |s.connections|
    case CloseHandle(t) => CloserOf(s, t).Closing? && CloserOf(s, t).id < |s.connections|
    case AwaitStopped(t) => CloserOf(s, t).Waiting? && s.pc.Exited?
  }

  /** The verifier took an answer and it says 0.1. */
  predicate Accepted(link: Link.State) {
    link.taken.Some? && Session.SaysVersion01(link.taken.value)
  }

  function SetHandle(s: State, id: Id, handle: Handle): State
    requires id < |s.connections|
  {
    s.(connections := s.connections[id := s.connections[id].(handle := handle)])
  }

  function MoveLink(s: State, id: Id, step: Link.Action): State
    requires id < |s.connections| && Link.Enabled(s.connections[id].link, step)
  {
    s.(connections := s.connections[id := s.connections[id].(link := Link.Apply(s.connections[id].link, step))])
  }

  /** Where `run` goes on once its Close of the session returns, and once the read loop has ended. */
  function AfterClose(id: Id, why: Why): Pc {
    if why.Final? then Retry else Draining(id, why)
  }

  function AfterDrain(id: Id, why: Why): Pc {
    if why.Cancelled? then DropActive(id) else Retry
  }

  function Apply(s: State, a: Action): State
    requires Enabled(s, a)
  {
    match a
    case SeeCancelledTop => s.(pc := Exited)
    case StartOpen => s.(pc := Opening)
    case OpenFails => s.(lastErr := Some(OpenFailed), pc := Retry)
    case OpenSucceeds(info) =>
      s.(connections := s.connections + [Connection(info, Open, Link.STARTED)], pc := Registering(|s.connections|))
    case DoAllocate =>
      var s' := MoveLink(s, s.pc.id, Link.Allocate);
      if s'.connections[s.pc.id].link.call.Some? then s'.(pc := Asking(s.pc.id)) else s'
    case DoAsk => MoveLink(s, s.pc.id, Link.Ask).(pc := Awaiting(s.pc.id))
    case DoTake => MoveLink(s, s.pc.id, Link.Take).(pc := Judging(s.pc.id))
    case VerifySucceeds => s.(pc := StoreInfo(s.pc.id))
    case VerifyFails => s.(lastErr := Some(VersionRejected), pc := Pc.Committing(s.pc.id, Rejected))
    case DoStoreInfo => s.(deviceInfo := Some(s.connections[s.pc.id].info), pc := ClearError(s.pc.id))
    case DoClearError => s.(lastErr := None, pc := StoreActive(s.pc.id))
    case DoStoreActive => s.(active := Some(s.pc.id), pc := Online(s.pc.id))
    case SeeEnded => s.(pc := DropActive(s.pc.id))
    case SeeCancelled => s.(pc := Pc.Committing(s.pc.id, Cancelled))
    case DoCommit =>
      if s.connections[s.pc.id].handle.Open? then
        SetHandle(s, s.pc.id, Committed(Supervisor)).(pc := Pc.Closing(s.pc.id, s.pc.why))
      else
        s.(pc := AfterClose(s.pc.id, s.pc.why))
    case DoClose => SetHandle(s, s.pc.id, Closed).(pc := AfterClose(s.pc.id, s.pc.why))
    case SeeDrained => s.(pc := AfterDrain(s.pc.id, s.pc.why))
    case DoDropActive => s.(active := if s.active == Some(s.pc.id) then None else s.active, pc := DropInfo(s.pc.id))
    case DoDropInfo => s.(deviceInfo := None, pc := StoreError(s.pc.id))
    case DoStoreError => s.(lastErr := Some(ReadFailed), pc := Pc.Committing(s.pc.id, Final))
    case RetryCancelled => s.(pc := Exited)
    case RetryWaits => s.(pc := RetryWait)
    case TimerFires => s.(pc := Top)
    case WaitCancelled => s.(pc := Exited)
    case LinkMoves(id, step) => MoveLink(s, id, step)
    case WriterCloses(id) => SetHandle(s, id, Closed)
    case CallClose(t) => s.(closers := s.closers[t := Swapping])
    case SwapClosed(t) =>
      if s.closedBy.Some? then s.(closers := s.closers[t := Waiting])
      else s.(closedBy := Some(t), closers := s.closers[t := Cancelling])
    case Cancel(t) => s.(cancelled := true, closers := s.closers[t := Loading])
    case LoadActive(t) =>
      s.(closers := s.closers[t := if s.active.Some? then CloserPc.Committing(s.active.value) else Waiting])
    case CommitHandle(t) =>
      var id := CloserOf(s, t).id;
      if s.connections[id].handle.Open? then
        SetHandle(s, id, Committed(Closer(t))).(closers := s.closers[t := CloserPc.Closing(id)])
      else
        s.(closers := s.closers[t := Waiting])
    case CloseHandle(t) => SetHandle(s, CloserOf(s, t).id, Closed).(closers := s.closers[t := Waiting])
    case AwaitStopped(t) => s.(closers := s.closers[t := Returned])
  }

  datatype Run = Run(states: seq<State>, actions: seq<Action>)

  /** The `i`-th step of a run is one the code can take. */
  ghost predicate Taken(run: Run, i: nat)
    requires i < |run.actions| && i + 1 < |run.states|
  {
    Enabled(run.states[i], run.actions[i]) && run.states[i + 1] == Apply(run.states[i], run.actions[i])
  }

  ghost predicate IsRun(run: Run) {
    && |run.states| == |run.actions| + 1
    && run.states[0] == START
    && forall i: nat :: i < |run.actions| ==> Taken(run, i)
  }

  // ------------------------------------------------------------------ getters

  /** The error a getter returns that loaded the active session before, and now loads the last failure. */
  function Err(loaded: Option<Id>, s: State): Option<Failure> {
    if loaded.Some? then None else if s.lastErr.None? then Some(Disconnected) else s.lastErr
  }

  /** The card a getter returns that loaded the active session before, and now loads that session's card. */
  function ShownCard(loaded: Option<Id>, s: State): Card {
    if loaded.Some? && loaded.value < |s.connections| then s.connections[loaded.value].link.loop.latest else NO_CARD
  }

  // ------------------------------------------------------------- the invariant

  /** The stretch of `run` in which the session is published. */
  predicate Published(pc: Pc) {
    pc.Online? || pc.DropActive? || ((pc.Committing? || pc.Closing? || pc.Draining?) && pc.why.Cancelled?)
  }

  predicate InfoStored(pc: Pc) {
    Published(pc) || pc.ClearError? || pc.StoreActive? || pc.DropInfo?
  }

  /** The session is known to have ended. */
  predicate Over(pc: Pc) {
    pc.DropActive? || pc.DropInfo? || pc.StoreError? || ((pc.Committing? || pc.Closing?) && pc.why.Final?)
  }

  /** How far `run` and the session's verifier have come together. */
  predicate InStep(pc: Pc, link: Link.State) {
    && (pc.Registering? ==> link.call.None?)
    && (pc.Asking? ==> link.call.Some? && !link.asked)
    && (pc.Awaiting? ==> link.asked && link.taken.None?)
    && (pc.Judging? ==> link.taken.Some?)
    && (pc.StoreInfo? || InfoStored(pc) ==> Accepted(link))
  }

  ghost predicate CurrentOk(s: State) {
    Serving(s) ==>
      var c := s.connections[Current(s.pc).value];
      && InStep(s.pc, c.link)
      && (s.pc.Draining? ==> !c.handle.Open?)
      && (Over(s.pc) ==> Ended(c))
      && (InfoStored(s.pc) ==> s.deviceInfo == Some(c.info))
  }

  /** The current connection is the newest; for every older one a close was committed, and its read loop has ended. */
  ghost predicate ConnectionsOk(s: State) {
    && (Current(s.pc).Some? ==> Current(s.pc).value + 1 == |s.connections|)
    && (forall i :: 0 <= i < |s.connections| && Current(s.pc) != Some(i) ==>
          !s.connections[i].handle.Open? && Ended(s.connections[i]))
  }

  ghost predicate LinksOk(s: State) {
    forall i :: 0 <= i < |s.connections| ==> Link.Ok(s.connections[i].link)
  }

  ghost predicate PointersOk(s: State) {
    && s.active == (if Published(s.pc) then Some(s.pc.id) else None)
    && (s.deviceInfo.Some? <==> InfoStored(s.pc))
    && (Published(s.pc) || s.pc.StoreActive? ==> s.lastErr == None)
    && (s.pc.Exited? ==> s.cancelled)
  }

  /** The handle is committed to exactly the one who is about to close it. */
  ghost predicate HandleOk(s: State, id: Id)
    requires id < |s.connections|
  {
    && (s.connections[id].handle == Committed(Supervisor) <==> s.pc.Closing? && s.pc.id == id)
    && (forall t: Thread ::
          s.connections[id].handle == Committed(Closer(t)) <==> CloserOf(s, t) == CloserPc.Closing(id))
    && (forall i: Id :: s.connections[id].handle != Committed(Reader(i)))
  }

  ghost predicate HandlesOk(s: State) {
    forall id: Id :: id < |s.connections| ==> HandleOk(s, id)
  }

  /** The newest connection, and no newer one will come. */
  predicate Last(s: State, id: Id) {
    s.cancelled && id + 1 == |s.connections| && (Current(s.pc) == Some(id) || s.pc.Retry? || s.pc.Exited?)
  }

  ghost predicate CloserOk(s: State, t: Thread) {
    var pc := CloserOf(s, t);
    && (pc.Cancelling? || pc.Loading? || pc.Committing? || pc.Closing? ==> s.closedBy == Some(t))
    && (pc.Committing? || pc.Closing? ==> Last(s, pc.id))
    && (pc.Loading? ==> s.cancelled)
    && (pc.Waiting? ==> s.closedBy.Some?)
    && (pc.Returned? ==> s.closedBy.Some? && s.pc.Exited?)
  }

  ghost predicate ClosersOk(s: State) {
    && (forall t: Thread :: CloserOk(s, t))
    && (s.closedBy.Some? ==> s.cancelled || CloserOf(s, s.closedBy.value).Cancelling?)
    && (s.cancelled ==> s.closedBy.Some?)
  }

  ghost predicate Inv(s: State) {
    ConnectionsOk(s) && LinksOk(s) && CurrentOk(s) && PointersOk(s) && HandlesOk(s) && ClosersOk(s)
  }

  lemma InvAtStart()
    ensures Inv(START)
  {
  }

  /** What no step does: reopen a handle, or take an ended session back. */
  ghost predicate Ages(c: Connection, c': Connection) {
    c'.info == c.info && (!c.handle.Open? ==> !c'.handle.Open?) && (Ended(c) ==> Ended(c'))
  }

  /** What a step of anyone but `run` does to a connection besides. */
  ghost predicate Nudged(c: Connection, c': Connection) {
    && Ages(c, c')
    && c'.link.call == c.link.call && c'.link.asked == c.link.asked && c'.link.taken == c.link.taken
  }

  lemma OthersNudge(s: State, a: Action)
    requires Enabled(s, a) && !IsSupervisorAction(a)
    ensures var s' := Apply(s, a);
            && s'.pc == s.pc && s'.active == s.active && s'.deviceInfo == s.deviceInfo && s'.lastErr == s.lastErr
            && (s.cancelled ==> s'.cancelled) && |s'.connections| == |s.connections|
            && forall i :: 0 <= i < |s.connections| ==> Nudged(s.connections[i], s'.connections[i])
  {
    hide Link.Apply, Link.Enabled, Accepted, Link.IsVerifierAction;
    if a.LinkMoves? {
      Link.PartsKept(s.connections[a.id].link, a.step);
    }
  }

  lemma OthersKeep(s: State, a: Action)
    requires ConnectionsOk(s) && CurrentOk(s) && PointersOk(s) && Enabled(s, a) && !IsSupervisorAction(a)
    ensures ConnectionsOk(Apply(s, a)) && CurrentOk(Apply(s, a)) && PointersOk(Apply(s, a))
  {
    hide Apply, Enabled, Session.SaysVersion01, IsSupervisorAction;
    OthersNudge(s, a);
  }

  /** A step of `run` that opens nothing: connections only age, none becomes current. */
  lemma SupervisedAges(s: State, a: Action)
    requires Enabled(s, a) && IsSupervisorAction(a) && !a.OpenSucceeds?
    ensures var s' := Apply(s, a);
            && |s'.connections| == |s.connections|
            && (Current(s'.pc) == Current(s.pc)
                || (Current(s'.pc) == None && (a.SeeDrained? || a.DoCommit? || a.DoClose?)))
            && forall i :: 0 <= i < |s.connections| ==> Ages(s.connections[i], s'.connections[i])
  {
    hide Link.Apply, Link.Enabled, Accepted;
    if a.DoAllocate? || a.DoAsk? || a.DoTake? {
      Link.PartsKept(s.connections[s.pc.id].link, VerifierStep(a));
    }
  }

  /** `run` lets go of a connection only when its close is committed and its read loop has ended. */
  lemma ReleasedIsOver(s: State, a: Action)
    requires ConnectionsOk(s) && CurrentOk(s) && Enabled(s, a) && (a.SeeDrained? || a.DoCommit? || a.DoClose?)
    ensures var s' := Apply(s, a);
            Current(s'.pc) != Current(s.pc) ==>
              var c := s'.connections[Current(s.pc).value];
              !c.handle.Open? && Ended(c)
  {
    hide Accepted;
  }

  lemma OpenedIsCurrent(s: State, a: Action)
    requires ConnectionsOk(s) && Enabled(s, a) && a.OpenSucceeds?
    ensures ConnectionsOk(Apply(s, a))
  {
  }

  lemma SupervisedConnections(s: State, a: Action)
    requires ConnectionsOk(s) && CurrentOk(s) && Enabled(s, a) && IsSupervisorAction(a)
    ensures ConnectionsOk(Apply(s, a))
  {
    hide Apply, Enabled, CurrentOk, Current, IsSupervisorAction;
    if a.OpenSucceeds? {
      OpenedIsCurrent(s, a);
    } else {
      SupervisedAges(s, a);
      if Current(Apply(s, a).pc) != Current(s.pc) {
        ReleasedIsOver(s, a);
      }
    }
  }

  /** A step of `run` on the session's verifier. */
  lemma VerifiedCurrent(s: State, a: Action)
    requires CurrentOk(s) && LinksOk(s) && Enabled(s, a) && (a.DoAllocate? || a.DoAsk? || a.DoTake?)
    ensures CurrentOk(Apply(s, a))
  {
    hide Link.Apply, Link.Enabled, Link.Ok, Session.SaysVersion01;
    Link.PartsKept(s.connections[s.pc.id].link, VerifierStep(a));
    Link.VerifierMoves(s.connections[s.pc.id].link, VerifierStep(a));
  }

  lemma JudgedCurrent(s: State, a: Action)
    requires CurrentOk(s) && Enabled(s, a) && (a.VerifySucceeds? || a.VerifyFails?)
    ensures CurrentOk(Apply(s, a))
  {
    hide Session.SaysVersion01;
  }

  lemma ClosingCurrent(s: State, a: Action)
    requires CurrentOk(s) && Enabled(s, a) && (a.DoCommit? || a.DoClose? || a.SeeDrained?)
    ensures CurrentOk(Apply(s, a))
  {
    hide Accepted;
  }

  lemma SupervisedCurrent(s: State, a: Action)
    requires ConnectionsOk(s) && CurrentOk(s) && LinksOk(s) && Enabled(s, a) && IsSupervisorAction(a)
    ensures CurrentOk(Apply(s, a))
  {
    hide Link.Apply, Link.Enabled, Link.Ok, Session.SaysVersion01;
    if a.DoAllocate? || a.DoAsk? || a.DoTake? {
      VerifiedCurrent(s, a);
    } else if a.VerifySucceeds? || a.VerifyFails? {
      JudgedCurrent(s, a);
    } else if a.DoCommit? || a.DoClose? || a.SeeDrained? {
      ClosingCurrent(s, a);
    } else {
      hide LinksOk, MoveLink, Accepted, SetHandle;
    }
  }

  lemma SupervisedPointers(s: State, a: Action)
    requires PointersOk(s) && Enabled(s, a) && IsSupervisorAction(a)
    ensures PointersOk(Apply(s, a))
  {
    hide Link.Apply, Link.Enabled, Accepted;
  }

  lemma LinksStep(s: State, a: Action)
    requires LinksOk(s) && Enabled(s, a)
    ensures LinksOk(Apply(s, a))
  {
    hide Link.Apply, Link.Enabled, Link.Ok, Accepted;
    if a.LinkMoves? {
      Link.OkStep(s.connections[a.id].link, a.step);
    } else if a.DoAllocate? || a.DoAsk? || a.DoTake? {
      Link.OkStep(s.connections[s.pc.id].link, VerifierStep(a));
    } else if a.OpenSucceeds? {
      Link.OkAtStart();
    }
  }

  /** Only its swap and its closing let `run` touch a handle. */
  lemma HandlesUntouched(s: State, a: Action)
    requires Enabled(s, a) && IsSupervisorAction(a) && !a.DoCommit? && !a.DoClose? && !a.OpenSucceeds?
    ensures var s' := Apply(s, a);
            && !s.pc.Closing? && !s'.pc.Closing? && s'.closers == s.closers && |s'.connections| == |s.connections|
            && forall id :: 0 <= id < |s.connections| ==> s'.connections[id].handle == s.connections[id].handle
  {
    hide Link.Apply, Link.Enabled, Accepted;
  }

  lemma TouchedHandles(s: State, a: Action)
    requires HandlesOk(s) && Enabled(s, a) && (a.DoCommit? || a.DoClose?)
    ensures HandlesOk(Apply(s, a))
  {
    forall id: Id | id < |s.connections|
      ensures HandleOk(Apply(s, a), id)
    {
      assert HandleOk(s, id);
    }
  }

  lemma OpenedHandles(s: State, a: Action)
    requires HandlesOk(s) && ClosersOk(s) && Enabled(s, a) && a.OpenSucceeds?
    ensures HandlesOk(Apply(s, a))
  {
    var s' := Apply(s, a);
    forall id: Id | id < |s'.connections|
      ensures HandleOk(s', id)
    {
      if id < |s.connections| {
        assert HandleOk(s, id);
      } else {
        assert forall t: Thread :: CloserOk(s, t) && CloserOf(s', t) == CloserOf(s, t);
      }
    }
  }

  lemma SupervisedHandles(s: State, a: Action)
    requires HandlesOk(s) && ClosersOk(s) && Enabled(s, a) && IsSupervisorAction(a)
    ensures HandlesOk(Apply(s, a))
  {
    hide Apply, Enabled, ClosersOk, IsSupervisorAction;
    if a.OpenSucceeds? {
      OpenedHandles(s, a);
    } else if a.DoCommit? || a.DoClose? {
      TouchedHandles(s, a);
    } else {
      HandlesUntouched(s, a);
      forall id: Id | id < |s.connections|
        ensures HandleOk(Apply(s, a), id)
      {
        assert HandleOk(s, id);
      }
    }
  }

  /** Of the others, the closers of a session and the device's own writer touch a handle. */
  lemma OthersUntouched(s: State, a: Action)
    requires Enabled(s, a) && !IsSupervisorAction(a) && !a.CommitHandle? && !a.CloseHandle? && !a.WriterCloses?
    ensures var s' := Apply(s, a);
            && s'.pc == s.pc && |s'.connections| == |s.connections|
            && (forall id :: 0 <= id < |s.connections| ==> s'.connections[id].handle == s.connections[id].handle)
            && (forall t: Thread, id: Id ::
                  CloserOf(s', t) == CloserPc.Closing(id) <==> CloserOf(s, t) == CloserPc.Closing(id))
  {
    hide Link.Apply, Link.Enabled, Accepted, Serving;
  }

  lemma OtherTouches(s: State, a: Action)
    requires HandlesOk(s) && Enabled(s, a) && (a.CommitHandle? || a.CloseHandle? || a.WriterCloses?)
    ensures HandlesOk(Apply(s, a))
  {
    hide Link.Apply, Link.Enabled, Accepted, Serving;
    forall id: Id | id < |s.connections|
      ensures HandleOk(Apply(s, a), id)
    {
      assert HandleOk(s, id);
    }
  }

  lemma OtherHandles(s: State, a: Action)
    requires HandlesOk(s) && Enabled(s, a) && !IsSupervisorAction(a)
    ensures HandlesOk(Apply(s, a))
  {
    hide Apply, Enabled, IsSupervisorAction, CloserOf;
    if a.CommitHandle? || a.CloseHandle? || a.WriterCloses? {
      OtherTouches(s, a);
    } else {
      OthersUntouched(s, a);
      forall id: Id | id < |s.connections|
        ensures HandleOk(Apply(s, a), id)
      {
        assert HandleOk(s, id);
      }
    }
  }

  /** `run` leaves the `Close` callers alone, and once cancelled no newer connection comes. */
  lemma SupervisedShared(s: State, a: Action)
    requires Enabled(s, a) && IsSupervisorAction(a)
    ensures var s' := Apply(s, a);
            && s'.closers == s.closers && s'.closedBy == s.closedBy && s'.cancelled == s.cancelled
            && (s.pc.Exited? ==> s'.pc.Exited?)
  {
    hide Link.Apply, Link.Enabled, Accepted;
  }

  lemma LastKept(s: State, a: Action, id: Id)
    requires Enabled(s, a) && IsSupervisorAction(a) && Last(s, id)
    ensures Last(Apply(s, a), id)
  {
    hide Link.Apply, Link.Enabled, Accepted;
  }

  lemma SupervisedClosers(s: State, a: Action)
    requires ClosersOk(s) && Enabled(s, a) && IsSupervisorAction(a)
    ensures ClosersOk(Apply(s, a))
  {
    hide Apply, Enabled, IsSupervisorAction, Last;
    SupervisedShared(s, a);
    forall t: Thread
      ensures CloserOk(Apply(s, a), t)
    {
      assert CloserOk(s, t) && CloserOf(Apply(s, a), t) == CloserOf(s, t);
      var pc := CloserOf(s, t);
      if pc.Committing? || pc.Closing? {
        LastKept(s, a, pc.id);
      }
    }
  }

  /** What the `Close` callers share moves one way only. */
  lemma OthersShared(s: State, a: Action)
    requires ClosersOk(s) && Enabled(s, a) && !IsSupervisorAction(a)
    ensures var s' := Apply(s, a);
            && s'.pc == s.pc && |s'.connections| == |s.connections| && (s.cancelled ==> s'.cancelled)
            && (s.closedBy.Some? ==> s'.closedBy == s.closedBy)
            && (s'.closedBy.Some? ==> s'.cancelled || CloserOf(s', s'.closedBy.value).Cancelling?)
            && (s'.cancelled ==> s'.closedBy.Some?)
  {
    hide Link.Apply, Link.Enabled, Link.IsVerifierAction, Accepted, Serving;
    if a.Cancel? {
      assert CloserOk(s, a.t);
    }
  }

  /** A `Close` caller that moves. */
  lemma MovedCloser(s: State, a: Action, t: Thread)
    requires ConnectionsOk(s) && PointersOk(s) && CloserOk(s, t) && Enabled(s, a)
    requires CloserIn(a) == Some(t)
    ensures CloserOk(Apply(s, a), t)
  {
    hide Link.Apply, Link.Enabled, Link.IsVerifierAction, Accepted, Serving;
  }

  lemma StillCloser(s: State, a: Action, t: Thread)
    requires Enabled(s, a) && !IsSupervisorAction(a)
    requires CloserIn(a) != Some(t)
    ensures CloserOf(Apply(s, a), t) == CloserOf(s, t)
  {
    hide Link.Apply, Link.Enabled, Link.IsVerifierAction, Accepted, Serving;
  }

  lemma OtherClosers(s: State, a: Action)
    requires ConnectionsOk(s) && PointersOk(s) && ClosersOk(s) && Enabled(s, a) && !IsSupervisorAction(a)
    ensures ClosersOk(Apply(s, a))
  {
    hide Apply, Enabled, ConnectionsOk, PointersOk, CloserIn, IsSupervisorAction, CloserOf;
    OthersShared(s, a);
    forall t: Thread
      ensures CloserOk(Apply(s, a), t)
    {
      assert CloserOk(s, t);
      if CloserIn(a) == Some(t) {
        MovedCloser(s, a, t);
      } else {
        StillCloser(s, a, t);
      }
    }
  }

  lemma InvStep(s: State, a: Action)
    requires Inv(s) && Enabled(s, a)
    ensures Inv(Apply(s, a))
  {
    hide Enabled, Apply, ConnectionsOk, LinksOk, CurrentOk, PointersOk, HandlesOk, ClosersOk;
    LinksStep(s, a);
    if IsSupervisorAction(a) {
      SupervisedConnections(s, a);
      SupervisedCurrent(s, a);
      SupervisedPointers(s, a);
      SupervisedHandles(s, a);
      SupervisedClosers(s, a);
    } else {
      OthersKeep(s, a);
      OtherHandles(s, a);
      OtherClosers(s, a);
    }
  }

  lemma {:induction false} InvAlong(run: Run, i: nat)
    requires IsRun(run) && i < |run.states|
    ensures Inv(run.states[i])
  {
    hide Inv, Enabled, Apply;
    InvAtStart();
    if i > 0 {
      InvAlong(run, i - 1);
      assert Taken(run, i - 1);
      InvStep(run.states[i - 1], run.actions[i - 1]);
    }
  }

  // ------------------------------------------------------------------- safety

  /**
   At most one transport is not closed at any time: the newest. It is open only while `run` deals with it;
   otherwise somebody is about to close its handle.
   */
  lemma OneOpenTransport(run: Run, i: nat, id: Id)
    requires IsRun(run) && i < |run.states|
    requires id < |run.states[i].connections| && !run.states[i].connections[id].handle.Closed?
    ensures id + 1 == |run.states[i].connections|
    ensures run.states[i].connections[id].handle.Open? ==> Current(run.states[i].pc) == Some(id)
  {
    InvAlong(run, i);
    var s := run.states[i];
    assert HandleOk(s, id);
    if Current(s.pc) != Some(id) {
      var holder := s.connections[id].handle.holder;
      assert holder.Closer?;
      assert CloserOk(s, holder.t);
    }
  }

  /** The session asked for the version, and took a reply it received itself, for that very request, that says 0.1. */
  ghost predicate Verified(link: Link.State) {
    && link.asked && link.call.Some? && link.taken.Some?
    && Link.Answer(link, link.taken.value, Caller.SequenceOf(link.call.value))
    && Session.SaysVersion01(link.taken.value)
  }

  /**
   A published session was verified, the published device information is that device's, and no failure is
   on record.
   */
  lemma PublishedIsVerified(run: Run, i: nat)
    requires IsRun(run) && i < |run.states| && run.states[i].active.Some?
    ensures var s := run.states[i];
            && s.active.value < |s.connections|
            && Verified(s.connections[s.active.value].link)
            && s.deviceInfo == Some(s.connections[s.active.value].info)
            && s.lastErr == None
  {
    hide Link.Answer, Link.Ok, Caller.SequenceOf, Session.SaysVersion01;
    InvAlong(run, i);
    Link.TakenIsOwnAnswer(run.states[i].connections[run.states[i].active.value].link);
  }

  /** The session was published: `run` is past going online with it, or has let go of it. */
  predicate Past(s: State, id: Id) {
    id < |s.connections| && (Current(s.pc) == Some(id) ==> Published(s.pc) || Over(s.pc))
  }

  lemma PastStays(s: State, a: Action, id: Id)
    requires Enabled(s, a) && Past(s, id)
    ensures Past(Apply(s, a), id)
  {
    hide Link.Apply, Link.Enabled, Accepted;
  }

  lemma {:induction false} PastForGood(run: Run, g: nat, i: nat, id: Id)
    requires IsRun(run) && g <= i < |run.states| && Past(run.states[g], id)
    ensures Past(run.states[i], id)
    decreases i
  {
    hide Past, Apply, Enabled;
    if g < i {
      PastForGood(run, g, i - 1, id);
      assert Taken(run, i - 1);
      PastStays(run.states[i - 1], run.actions[i - 1], id);
    }
  }

  /**
   A getter loads the active session at one moment and its card at a later one, whatever happens in between. A
   card it then shows is that of the session still active, verified, reading, and the latest valid one received.
   */
  lemma ShownCardIsReceived(run: Run, g: nat, i: nat)
    requires IsRun(run) && g <= i < |run.states| && ShownCard(run.states[g].active, run.states[i]) != NO_CARD
    ensures var loaded, s := run.states[g].active, run.states[i];
            && loaded.Some? && s.active == loaded && loaded.value < |s.connections|
            && var c := s.connections[loaded.value];
               Verified(c.link) && !Ended(c) && ShownCard(loaded, s) == Session.Cached(NO_CARD, c.link.loop.received)
  {
    hide Verified;
    var id, s := run.states[g].active.value, run.states[i];
    InvAlong(run, g);
    PastForGood(run, g, i, id);
    InvAlong(run, i);
    assert Link.Ok(s.connections[id].link);
    assert Session.LoopOk(s.connections[id].link.loop);
    PublishedIsVerified(run, i);
  }

  /** Nothing is published or shown, an error is reported, and of every transport a close was committed. */
  ghost predicate Quiet(s: State) {
    && s.pc.Exited?
    && s.active == None && s.deviceInfo == None && Err(s.active, s).Some?
    && (forall loaded :: ShownCard(loaded, s) == NO_CARD)
    && forall id :: 0 <= id < |s.connections| ==> !s.connections[id].handle.Open? && Ended(s.connections[id])
  }

  ghost predicate AllClosed(s: State) {
    forall id :: 0 <= id < |s.connections| ==> s.connections[id].handle.Closed?
  }

  /** Once the supervisor has exited it stays so, and no further transport is opened. */
  lemma {:induction false} ExitedForGood(run: Run, i: nat, j: nat)
    requires IsRun(run) && i <= j < |run.states| && run.states[i].pc.Exited?
    ensures run.states[j].pc.Exited? && |run.states[j].connections| == |run.states[i].connections|
    decreases j
  {
    hide Apply, Enabled;
    if i < j {
      ExitedForGood(run, i, j - 1);
      assert Taken(run, j - 1);
      ExitedStep(run.states[j - 1], run.actions[j - 1]);
    }
  }

  lemma ExitedStep(s: State, a: Action)
    requires Enabled(s, a) && s.pc.Exited?
    ensures Apply(s, a).pc.Exited? && |Apply(s, a).connections| == |s.connections|
  {
    hide Link.Apply, Link.Enabled, Accepted;
  }

  /**
   Once any `Close` has returned, then and forever after: nothing is active, no device is shown, no transport
   is opened any more, and every read loop has ended. A handle is still open if and only if the one `Close`
   that won the service's swap stands between committing to that handle and closing it; so once the winner
   has returned, all are closed.
   */
  lemma ReturnedIsQuiet(run: Run, i: nat, j: nat, t: Thread)
    requires IsRun(run) && i <= j < |run.states| && CloserOf(run.states[i], t).Returned?
    ensures var s := run.states[j];
            && Quiet(s) && |s.connections| == |run.states[i].connections|
            && s.closedBy.Some?
            && (AllClosed(s) <==> !CloserOf(s, s.closedBy.value).Closing?)
            && (CloserOf(s, s.closedBy.value).Returned? ==> AllClosed(s))
  {
    InvAlong(run, i);
    assert CloserOk(run.states[i], t);
    ExitedForGood(run, i, j);
    InvAlong(run, j);
    var s := run.states[j];
    ExitedHandles(s);
    EndedShowNothing(s);
  }

  /** Whenever a getter loaded the active session: of a session that has ended it shows no card. */
  lemma EndedShowNothing(s: State)
    requires LinksOk(s) && forall id :: 0 <= id < |s.connections| ==> Ended(s.connections[id])
    ensures forall loaded :: ShownCard(loaded, s) == NO_CARD
  {
    forall loaded: Option<Id> | loaded.Some? && loaded.value < |s.connections|
      ensures ShownCard(loaded, s) == NO_CARD
    {
      assert Link.Ok(s.connections[loaded.value].link);
    }
  }

  lemma ExitedHandles(s: State)
    requires HandlesOk(s) && ClosersOk(s) && s.pc.Exited? && s.closedBy.Some?
    requires forall id :: 0 <= id < |s.connections| ==> !s.connections[id].handle.Open?
    ensures AllClosed(s) <==> !CloserOf(s, s.closedBy.value).Closing?
  {
    var winner := s.closedBy.value;
    assert CloserOk(s, winner);
    if CloserOf(s, winner).Closing? {
      assert HandleOk(s, CloserOf(s, winner).id);
    }
    forall id: Id | id < |s.connections| && !s.connections[id].handle.Closed?
      ensures CloserOf(s, winner).Closing?
    {
      assert HandleOk(s, id);
      assert CloserOk(s, s.connections[id].handle.holder.t);
    }
  }

  // ------------------------------- a Close that returns while a handle is open

  function LastOf(run: Run): State {
    if run.states == [] then START else run.states[|run.states| - 1]
  }

  lemma Extend(run: Run, a: Action) returns (longer: Run)
    requires IsRun(run) && Enabled(LastOf(run), a)
    ensures IsRun(longer) && LastOf(longer) == Apply(LastOf(run), a)
  {
    hide Apply, Enabled;
    longer := Run(run.states + [Apply(LastOf(run), a)], run.actions + [a]);
    forall i: nat | i < |longer.actions|
      ensures Taken(longer, i)
    {
      assert i < |run.actions| ==> Taken(run, i);
    }
  }

  const DEVICE := DeviceInfo("path", "serial")

  /** One device was opened and `run` has come this far with it; nobody has called `Close`. */
  function Opened(pc: Pc, link: Link.State): State {
    State(pc, [Connection(DEVICE, Open, link)], None, None, None, false, None, map[])
  }

  /** A step of the only session. */
  lemma RunLink(run: Run, link: Link.State, a: Action) returns (longer: Run)
    requires IsRun(run) && (a.DoAllocate? || a.DoAsk? || a.DoTake? || (a.LinkMoves? && a.id == 0))
    requires var s := LastOf(run);
             && s.connections != [] && s.connections == [s.connections[0]] && s.connections[0].link == link
             && Enabled(s, a) && (!a.LinkMoves? ==> s.pc.id == 0)
    ensures IsRun(longer)
    ensures var s := LastOf(run);
            var step := if a.LinkMoves? then a.step else VerifierStep(a);
            && Link.Enabled(link, step)
            && LastOf(longer) == s.(connections := [s.connections[0].(link := Link.Apply(link, step))],
                                    pc := LastOf(longer).pc)
            && LastOf(longer).pc == (if a.DoAsk? then Awaiting(0)
                                     else if a.DoTake? then Judging(0)
                                     else if a.DoAllocate? && Link.Apply(link, step).call.Some? then Asking(0)
                                     else s.pc)
  {
    hide Link.Apply, Link.Enabled, IsRun;
    longer := Extend(run, a);
  }

  lemma RunAsks() returns (run: Run)
    ensures IsRun(run) && LastOf(run) == Opened(Awaiting(0), Link.ASKED)
  {
    run := Run([START], []);
    assert IsRun(run);
    hide Link.Apply, Link.Enabled, IsRun;
    Link.FirstAllocation();
    run := Extend(run, StartOpen);
    run := Extend(run, OpenSucceeds(DEVICE));
    assert LastOf(run) == Opened(Registering(0), Link.STARTED);
    var a := Link.Apply(Link.STARTED, Link.Allocate);
    hide Opened;
    run := RunRegisters(run, Link.STARTED);
    var b := Link.Apply(a, Link.Allocate);
    run := RunRegisters(run, a);
    run := RunRegisters(run, b);
    run := RunSends(run, Link.Apply(b, Link.Allocate));
  }

  lemma RunRegisters(run: Run, link: Link.State) returns (longer: Run)
    requires IsRun(run) && LastOf(run) == Opened(Registering(0), link) && Link.Enabled(link, Link.Allocate)
    ensures var link' := Link.Apply(link, Link.Allocate);
            IsRun(longer) && LastOf(longer) == Opened(if link'.call.Some? then Asking(0) else Registering(0), link')
  {
    hide Link.Apply, Link.Enabled, IsRun;
    longer := RunLink(run, link, DoAllocate);
  }

  lemma RunSends(run: Run, link: Link.State) returns (longer: Run)
    requires IsRun(run) && LastOf(run) == Opened(Asking(0), link) && Link.Enabled(link, Link.Ask)
    ensures IsRun(longer) && LastOf(longer) == Opened(Awaiting(0), Link.Apply(link, Link.Ask))
  {
    hide Link.Apply, Link.Enabled, IsRun;
    longer := RunLink(run, link, DoAsk);
  }

  /** The device's answer to the version request of sequence 1. */
  const REPLY: Session.Raw := Bare(Header(RESPONSE, GET_VERSION, 1, SUCCESS))[5 := 0][6 := 1]

  lemma ReplyAccepted()
    ensures Session.IsResponse(REPLY) && Link.SequenceIn(REPLY) == 1 && Session.SaysVersion01(REPLY)
  {
  }

  lemma RunVerifies() returns (run: Run)
    ensures IsRun(run) && LastOf(run) == Opened(Judging(0), Link.Answered(REPLY))
  {
    hide Link.Apply, Link.Enabled, IsRun, Link.Answered, Session.IsResponse, Link.SequenceIn, Session.SaysVersion01,
         REPLY;
    ReplyAccepted();
    Link.AnswerRouted(REPLY);
    run := RunAsks();
    var link := Link.ASKED;
    run := RunLink(run, link, LinkMoves(0, Link.Receive(REPLY)));
    link := Link.Apply(link, Link.Receive(REPLY));
    assert LastOf(run) == Opened(Awaiting(0), link);
    run := RunLink(run, link, LinkMoves(0, Link.Consume));
    link := Link.Apply(link, Link.Consume);
    assert LastOf(run) == Opened(Awaiting(0), link);
    run := RunLink(run, link, LinkMoves(0, Link.Consume));
    link := Link.Apply(link, Link.Consume);
    assert LastOf(run) == Opened(Awaiting(0), link);
    run := RunLink(run, link, LinkMoves(0, Link.Consume));
    link := Link.Apply(link, Link.Consume);
    assert LastOf(run) == Opened(Awaiting(0), link);
    run := RunLink(run, link, LinkMoves(0, Link.Consume));
    link := Link.Apply(link, Link.Consume);
    assert LastOf(run) == Opened(Awaiting(0), link);
    run := RunLink(run, link, DoTake);
  }

  /** The session is online, and `Close` caller 1 has committed to its handle. */
  function Shared(pc: Pc, link: Link.State, active: Option<Id>, info: Option<DeviceInfo>, err: Option<Failure>): State {
    State(pc, [Connection(DEVICE, Committed(Closer(1)), link)], active, info, err, true, Some(1),
          map[1 := CloserPc.Closing(0)])
  }

  lemma RunOnline() returns (run: Run)
    ensures IsRun(run)
    ensures LastOf(run) == Opened(Online(0), Link.Answered(REPLY)).(active := Some(0), deviceInfo := Some(DEVICE))
  {
    hide Link.Apply, Link.Enabled, IsRun, Session.SaysVersion01, REPLY;
    ReplyAccepted();
    run := RunVerifies();
    run := Extend(run, VerifySucceeds);
    run := Extend(run, DoStoreInfo);
    run := Extend(run, DoClearError);
    run := Extend(run, DoStoreActive);
  }

  lemma RunCommitted() returns (run: Run)
    ensures IsRun(run) && LastOf(run) == Shared(Online(0), Link.Answered(REPLY), Some(0), Some(DEVICE), None)
  {
    hide Link.Apply, Link.Enabled, IsRun, Link.Answered, REPLY;
    run := RunOnline();
    run := Extend(run, CallClose(1));
    run := Extend(run, SwapClosed(1));
    run := Extend(run, Cancel(1));
    run := Extend(run, LoadActive(1));
    run := Extend(run, CommitHandle(1));
    assert LastOf(run).closers == map[1 := CloserPc.Closing(0)];
  }

  /** A read fails by itself and ends the session. */
  lemma RunUnplugged() returns (run: Run, link: Link.State)
    ensures IsRun(run) && LastOf(run) == Shared(Online(0), link, Some(0), Some(DEVICE), None) && link.loop.done
  {
    hide IsRun, REPLY;
    run := RunCommitted();
    link := Link.Answered(REPLY);
    var steps := [Session.Break, Session.ClearCard, Session.StoreFailure, Session.CloseDone];
    var n := 0;
    while n < 4
      invariant 0 <= n <= 4
      invariant IsRun(run) && LastOf(run) == Shared(Online(0), link, Some(0), Some(DEVICE), None)
      invariant link.routing.None? && CallerRaces.PcOf(link.calls, Link.READER).Idle?
      invariant link.loop.pc == [Session.Reading, Session.Clearing, Session.Failing, Session.Closing, Session.Over][n]
      invariant n == 4 ==> link.loop.done
    {
      run := RunLink(run, link, LinkMoves(0, Link.WindUp(steps[n])));
      link := Link.Apply(link, Link.WindUp(steps[n]));
      n := n + 1;
    }
  }

  lemma RunExits() returns (run: Run, link: Link.State)
    ensures IsRun(run) && LastOf(run) == Shared(Exited, link, None, None, Some(ReadFailed))
  {
    hide IsRun;
    run, link := RunUnplugged();
    run := Extend(run, SeeEnded);
    run := Extend(run, DoDropActive);
    run := Extend(run, DoDropInfo);
    run := Extend(run, DoStoreError);
    run := Extend(run, DoCommit);
    run := Extend(run, RetryCancelled);
  }

  /**
   A second `Close` can return while a handle is open. The first has committed to the session's handle and
   pauses there; the session ends by itself, so `run` loses that swap, lets go and exits; the second `Close`
   only waits for that.
   */
  lemma LosingCloseReturnsEarly() returns (run: Run)
    ensures IsRun(run)
    ensures CloserOf(LastOf(run), 2).Returned? && !AllClosed(LastOf(run))
  {
    hide IsRun, Link.Apply, Link.Enabled;
    var link: Link.State;
    run, link := RunExits();
    run := RunSecondWaits(run, link);
    run := Extend(run, AwaitStopped(2));
    assert !LastOf(run).connections[0].handle.Closed?;
  }

  lemma RunSecondWaits(run: Run, link: Link.State) returns (longer: Run)
    requires IsRun(run) && LastOf(run) == Shared(Exited, link, None, None, Some(ReadFailed))
    ensures IsRun(longer)
    ensures LastOf(longer) == LastOf(run).(closers := map[1 := CloserPc.Closing(0), 2 := Waiting])
  {
    hide IsRun, Link.Apply, Link.Enabled;
    var calling := Extend(run, CallClose(2));
    longer := Extend(calling, SwapClosed(2));
    assert LastOf(longer).closers == map[1 := CloserPc.Closing(0), 2 := Waiting];
  }
}
