/**
 `Allocate` and `Consume` under concurrency: any number of threads, one atomic operation of the code per
 step, entries expiring or being evicted at any moment. A call is named by the counter draw it was made
 for.
 */
module CallerRaces {
  import opened Wrappers
  import opened Bytes
  import opened Caller

  type Thread = nat
  type CallId = nat
  type Raw = seq<uint8>

  /** Where a thread stands: between calls, in `Allocate`, or in `Consume`. */
  datatype Pc =
    | Idle
    | Drawn(draw: nat, attempts: nat)              // drew a sequence, about to look it up
    | Again(attempts: nat)                         // could not use it, about to draw the next
    | Free(draw: nat)                              // found it free, about to add the call
    | Found(call: CallId, sequence: uint16, raw: Raw)    // about to compare-and-swap
    | Won(call: CallId, sequence: uint16, raw: Raw)      // won the swap, about to remove
    | Removed(call: CallId, sequence: uint16, raw: Raw)  // about to send

  /** A pending call. `sent`, `tries` and `wins` record its whole history. */
  datatype Call = Call(consumed: bool, channel: seq<Raw>, sent: seq<Raw>, tries: nat, wins: nat)

  datatype State = State(draws: nat, entries: map<uint16, CallId>, calls: map<CallId, Call>, threads: map<Thread, Pc>)

  const FRESH_CALL := Call(false, [], [], 0, 0)
  const START := State(0, map[], map[], map[])

  function PcOf(s: State, t: Thread): Pc {
    if t in s.threads then s.threads[t] else Idle
  }

  datatype Action =
    | Draw(t: Thread)
    | Retry(t: Thread)
    | Redraw(t: Thread)
    | GiveUp(t: Thread)
    | Miss(t: Thread)
    | Add(t: Thread)
    | Expire(sequence: uint16)
    | Get(t: Thread, sequence: uint16, raw: Raw)
    | Win(t: Thread)
    | Lose(t: Thread)
    | Remove(t: Thread)
    | Send(t: Thread)
    | Receive(call: CallId)

  /** The drawn sequence cannot be used: zero, or taken by a live entry. */
  predicate Unusable(s: State, draw: nat) {
    SequenceOf(draw) == 0 || SequenceOf(draw) in s.entries
  }

  predicate Enabled(s: State, a: Action) {
    match a
    case Draw(t) => PcOf(s, t).Idle?
    case Retry(t) => var pc := PcOf(s, t); pc.Drawn? && Unusable(s, pc.draw) && pc.attempts + 1 < MAX_ATTEMPTS
    case Redraw(t) => PcOf(s, t).Again?
    case GiveUp(t) => var pc := PcOf(s, t); pc.Drawn? && Unusable(s, pc.draw) && pc.attempts + 1 >= MAX_ATTEMPTS
    case Miss(t) => PcOf(s, t).Drawn? && !Unusable(s, PcOf(s, t).draw)
    case Add(t) =>
      var pc := PcOf(s, t);
      pc.Free? && (SequenceOf(pc.draw) in s.entries || |s.entries| < CALLER_CAPACITY)
    case Expire(sequence) => sequence in s.entries
    case Get(t, sequence, _) => PcOf(s, t).Idle? && sequence in s.entries
    case Win(t) => PcOf(s, t).Found? && PcOf(s, t).call in s.calls && !s.calls[PcOf(s, t).call].consumed
    case Lose(t) => PcOf(s, t).Found? && PcOf(s, t).call in s.calls && s.calls[PcOf(s, t).call].consumed
    case Remove(t) => PcOf(s, t).Won?
    case Send(t) => PcOf(s, t).Removed? && PcOf(s, t).call in s.calls && s.calls[PcOf(s, t).call].channel == []
    case Receive(call) => call in s.calls && s.calls[call].channel != []
  }

  function Apply(s: State, a: Action): State
    requires Enabled(s, a)
  {
    match a
    case Draw(t) => s.(draws := s.draws + 1, threads := s.threads[t := Drawn(s.draws + 1, 0)])
    case Retry(t) => s.(threads := s.threads[t := Again(PcOf(s, t).attempts + 1)])
    case Redraw(t) =>
      s.(draws := s.draws + 1, threads := s.threads[t := Drawn(s.draws + 1, PcOf(s, t).attempts)])
    case GiveUp(t) => s.(threads := s.threads[t := Idle])
    case Miss(t) => s.(threads := s.threads[t := Free(PcOf(s, t).draw)])
    case Add(t) =>
      var draw := PcOf(s, t).draw;
      s.(entries := s.entries[SequenceOf(draw) := draw], calls := s.calls[draw := FRESH_CALL],
         threads := s.threads[t := Idle])
    case Expire(sequence) => s.(entries := s.entries - {sequence})
    case Get(t, sequence, raw) => s.(threads := s.threads[t := Found(s.entries[sequence], sequence, raw)])
    case Win(t) =>
      var pc := PcOf(s, t);
      var call := s.calls[pc.call];
      s.(calls := s.calls[pc.call := call.(consumed := true, tries := call.tries + 1, wins := call.wins + 1)],
         threads := s.threads[t := Won(pc.call, pc.sequence, pc.raw)])
    case Lose(t) =>
      var pc := PcOf(s, t);
      var call := s.calls[pc.call];
      s.(calls := s.calls[pc.call := call.(tries := call.tries + 1)], threads := s.threads[t := Idle])
    case Remove(t) =>
      var pc := PcOf(s, t);
      s.(entries := s.entries - {pc.sequence}, threads := s.threads[t := Removed(pc.call, pc.sequence, pc.raw)])
    case Send(t) =>
      var pc := PcOf(s, t);
      var call := s.calls[pc.call];
      s.(calls := s.calls[pc.call := call.(channel := [pc.raw], sent := call.sent + [pc.raw])],
         threads := s.threads[t := Idle])
    case Receive(id) => s.(calls := s.calls[id := s.calls[id].(channel := s.calls[id].channel[1..])])
  }

  /** A finite run: the states passed and the action taken from each but the last. */
  datatype Run = Run(states: seq<State>, actions: seq<Action>)

  /** The `i`-th step of a run is one the code can take. */
  ghost predicate Taken(run: Run, i: nat)
    requires i < |run.actions| && i + 1 < |run.states|
  {
    Enabled(run.states[i], run.actions[i]) && run.states[i + 1] == Apply(run.states[i], run.actions[i])
  }

  ghost predicate IsRun(run: Run) {
    && |run.states| == |run.actions| + 1
    && run.states[0] == START
    && forall i: nat :: i < |run.actions| ==> Taken(run, i)
  }

  // ------------------------------------------------------------- the invariant

  ghost predicate EntriesOk(s: State) {
    && |s.entries| <= CALLER_CAPACITY
    && (forall q | q in s.entries :: q != 0 && s.entries[q] in s.calls && SequenceOf(s.entries[q]) == q)
  }

  predicate CallOk(call: Call) {
    && call.wins == (if call.consumed then 1 else 0)
    && (call.tries > 0 <==> call.consumed)
    && |call.sent| <= 1
    && (call.sent != [] ==> call.consumed)
    && (call.channel == [] || call.channel == call.sent)
  }

  ghost predicate CallsOk(s: State) {
    forall c | c in s.calls :: 1 <= c <= s.draws && SequenceOf(c) != 0 && CallOk(s.calls[c])
  }

  /** The thread holds the right, won once per call, to send. */
  predicate Holds(pc: Pc, c: CallId) {
    (pc.Won? || pc.Removed?) && pc.call == c
  }

  predicate Allocating(pc: Pc, draw: nat) {
    (pc.Drawn? || pc.Free?) && pc.draw == draw
  }

  ghost predicate ThreadOk(s: State, pc: Pc) {
    && ((pc.Drawn? || pc.Free?) ==> 1 <= pc.draw <= s.draws && pc.draw !in s.calls)
    && (pc.Free? ==> SequenceOf(pc.draw) != 0)
    && ((pc.Found? || pc.Won? || pc.Removed?) ==> pc.call in s.calls && SequenceOf(pc.call) == pc.sequence)
    && ((pc.Won? || pc.Removed?) ==> s.calls[pc.call].consumed && s.calls[pc.call].sent == [])
  }

  ghost predicate ThreadsOk(s: State) {
    && (forall t | t in s.threads :: ThreadOk(s, s.threads[t]))
    && (forall t, u, c | t in s.threads && u in s.threads && Holds(s.threads[t], c) && Holds(s.threads[u], c) :: t == u)
    && (forall t, u, d | t in s.threads && u in s.threads
                         && Allocating(s.threads[t], d) && Allocating(s.threads[u], d) :: t == u)
  }

  ghost predicate Inv(s: State) {
    EntriesOk(s) && CallsOk(s) && ThreadsOk(s)
  }

  lemma EntryRemoved(entries: map<uint16, CallId>, q: uint16)
    ensures |entries - {q}| <= |entries|
  {
    var rest := entries - {q};
    if q in entries {
      assert rest.Keys == entries.Keys - {q};
    } else {
      assert rest == entries;
    }
  }

  lemma EntryAdded(entries: map<uint16, CallId>, q: uint16, c: CallId)
    ensures |entries[q := c]| == |entries| + if q in entries then 0 else 1
  {
    assert entries[q := c].Keys == entries.Keys + {q};
  }

  lemma AddEntries(s: State, t: Thread)
    requires EntriesOk(s) && ThreadsOk(s) && Enabled(s, Add(t))
    ensures EntriesOk(Apply(s, Add(t)))
  {
    hide SequenceOf, CallOk, Unusable;
    var draw := PcOf(s, t).draw;
    assert ThreadOk(s, s.threads[t]);
    EntryAdded(s.entries, SequenceOf(draw), draw);
  }

  /** Calls are only ever added; entries are added by `Add` alone. */
  lemma TablesStep(s: State, a: Action)
    requires Enabled(s, a)
    ensures var s' := Apply(s, a);
            && s.calls.Keys <= s'.calls.Keys
            && (!a.Add? ==>
                  s'.entries == s.entries || exists q :: s'.entries == s.entries - {q})
  {
    hide SequenceOf, CallOk, Unusable;
    match a {
      case Expire(q) => assert Apply(s, a).entries == s.entries - {q};
      case Remove(t) => assert Apply(s, a).entries == s.entries - {PcOf(s, t).sequence};
      case _ =>
    }
  }

  lemma EntriesStep(s: State, a: Action)
    requires EntriesOk(s) && ThreadsOk(s) && Enabled(s, a)
    ensures EntriesOk(Apply(s, a))
  {
    if a.Add? {
      AddEntries(s, a.t);
    } else {
      hide Apply, Enabled, ThreadsOk, SequenceOf;
      TablesStep(s, a);
      var s' := Apply(s, a);
      if s'.entries != s.entries {
        var q :| s'.entries == s.entries - {q};
        EntryRemoved(s.entries, q);
      }
    }
  }

  lemma CallsStep(s: State, a: Action)
    requires Inv(s) && Enabled(s, a)
    ensures CallsOk(Apply(s, a))
  {
    hide SequenceOf, Unusable;
    var s' := Apply(s, a);
    forall c | c in s'.calls
      ensures 1 <= c <= s'.draws && SequenceOf(c) != 0 && CallOk(s'.calls[c])
    {
      match a {
        case Send(t) => assert ThreadOk(s, PcOf(s, t));
        case Add(t) => assert ThreadOk(s, PcOf(s, t));
        case _ =>
      }
    }
  }

  /** The thread an action moves, if any. */
  function Mover(a: Action): Option<Thread> {
    match a
    case Draw(t) => Some(t)
    case Retry(t) => Some(t)
    case Redraw(t) => Some(t)
    case GiveUp(t) => Some(t)
    case Miss(t) => Some(t)
    case Add(t) => Some(t)
    case Expire(_) => None
    case Get(t, _, _) => Some(t)
    case Win(t) => Some(t)
    case Lose(t) => Some(t)
    case Remove(t) => Some(t)
    case Send(t) => Some(t)
    case Receive(_) => None
  }

  /** A thread that does not move keeps its own invariant under another thread's step. */
  lemma BystanderStep(s: State, a: Action, u: Thread)
    requires Inv(s) && Enabled(s, a) && u in s.threads && Mover(a) != Some(u)
    ensures u in Apply(s, a).threads && Apply(s, a).threads[u] == s.threads[u]
    ensures ThreadOk(Apply(s, a), s.threads[u])
  {
    hide SequenceOf, CallOk, Unusable;
    var pc := s.threads[u];
    assert ThreadOk(s, pc);
    match a {
      case Add(t) =>
        if pc.Drawn? || pc.Free? {
          assert Allocating(s.threads[t], PcOf(s, t).draw) && Allocating(s.threads[u], pc.draw);
        }
      case Send(t) =>
        if pc.Won? || pc.Removed? {
          assert Holds(s.threads[u], pc.call);
          assert Holds(s.threads[t], PcOf(s, t).call);
        }
      case _ =>
    }
  }

  lemma MoverStep(s: State, a: Action, t: Thread)
    requires Inv(s) && Enabled(s, a) && Mover(a) == Some(t)
    ensures t in Apply(s, a).threads && ThreadOk(Apply(s, a), Apply(s, a).threads[t])
  {
    if t in s.threads {
      assert ThreadOk(s, s.threads[t]);
    }
  }

  /** What the thread that moves newly holds: a call nobody held, or a draw nobody had. */
  lemma MoverHolds(s: State, a: Action, t: Thread)
    requires Enabled(s, a) && Mover(a) == Some(t)
    ensures var pc' := Apply(s, a).threads[t];
            && (forall c :: Holds(pc', c) && !Holds(PcOf(s, t), c) ==> c in s.calls && !s.calls[c].consumed)
            && (forall d :: Allocating(pc', d) && !Allocating(PcOf(s, t), d) ==> d == s.draws + 1)
  {
    hide SequenceOf, CallOk, Unusable;
  }

  lemma UniqueHolders(s: State, a: Action, t: Thread, u: Thread)
    requires Inv(s) && Enabled(s, a) && t != u
    requires t in Apply(s, a).threads && u in Apply(s, a).threads && Mover(a) != Some(u)
    ensures forall c :: !(Holds(Apply(s, a).threads[t], c) && Holds(Apply(s, a).threads[u], c))
    ensures forall d :: !(Allocating(Apply(s, a).threads[t], d) && Allocating(Apply(s, a).threads[u], d))
  {
    assert u in s.threads;
    BystanderStep(s, a, u);
    assert ThreadOk(s, s.threads[u]);
    if Mover(a) == Some(t) {
      MoverHolds(s, a, t);
    }
  }

  lemma ThreadsStep(s: State, a: Action)
    requires Inv(s) && Enabled(s, a)
    ensures ThreadsOk(Apply(s, a))
  {
    var s' := Apply(s, a);
    forall t | t in s'.threads
      ensures ThreadOk(s', s'.threads[t])
    {
      if Mover(a) == Some(t) {
        MoverStep(s, a, t);
      } else {
        BystanderStep(s, a, t);
      }
    }
    forall t, u | t in s'.threads && u in s'.threads && t != u
      ensures forall c :: !(Holds(s'.threads[t], c) && Holds(s'.threads[u], c))
      ensures forall d :: !(Allocating(s'.threads[t], d) && Allocating(s'.threads[u], d))
    {
      if Mover(a) == Some(u) {
        UniqueHolders(s, a, u, t);
      } else {
        UniqueHolders(s, a, t, u);
      }
    }
  }

  lemma InvStep(s: State, a: Action)
    requires Inv(s) && Enabled(s, a)
    ensures Inv(Apply(s, a))
  {
    EntriesStep(s, a);
    CallsStep(s, a);
    ThreadsStep(s, a);
  }

  lemma InvAtStart()
    ensures Inv(START) && RecentFree(START) && LatestEntries(START)
  {
  }

  lemma {:induction false} InvAlong(run: Run, i: nat)
    requires IsRun(run) && i < |run.states|
    ensures Inv(run.states[i])
  {
    hide Inv, Apply, Enabled;
    InvAtStart();
    if i > 0 {
      InvAlong(run, i - 1);
      assert Taken(run, i - 1);
      InvStep(run.states[i - 1], run.actions[i - 1]);
    }
  }

  // ----------------------------------------------------------- at most once

  /**
   In every reachable state, however the threads interleave: each call has been sent at most one
   response; a thread about to send finds the one-place channel empty, so the send does not block; and
   once anyone has tried a call's swap, exactly one of those who tried has won it.
   */
  lemma AtMostOnce(run: Run, i: nat)
    requires IsRun(run) && i < |run.states|
    ensures var s := run.states[i];
            && (forall c | c in s.calls :: |s.calls[c].sent| <= 1)
            && (forall t | PcOf(s, t).Removed? :: Enabled(s, Send(t)))
            && (forall c | c in s.calls :: s.calls[c].wins == if s.calls[c].tries > 0 then 1 else 0)
  {
    InvAlong(run, i);
    var s := run.states[i];
    forall t | PcOf(s, t).Removed?
      ensures Enabled(s, Send(t))
    {
      assert ThreadOk(s, s.threads[t]);
      assert CallOk(s.calls[PcOf(s, t).call]);
    }
  }

  /** Some step before `i` looked up `sequence` for the response `raw` and found the live call `c`. */
  ghost predicate LookedUp(run: Run, i: nat, c: CallId, raw: Raw)
    requires IsRun(run) && i < |run.states|
  {
    exists j: nat, t :: j < i && run.actions[j] == Get(t, SequenceOf(c), raw)
                        && SequenceOf(c) in run.states[j].entries && run.states[j].entries[SequenceOf(c)] == c
  }

  ghost predicate Sourced(run: Run, i: nat)
    requires IsRun(run) && i < |run.states|
  {
    var s := run.states[i];
    && (forall c, raw | c in s.calls && raw in s.calls[c].sent :: LookedUp(run, i, c, raw))
    && (forall t | t in s.threads && (s.threads[t].Found? || s.threads[t].Won? || s.threads[t].Removed?) ::
          LookedUp(run, i, s.threads[t].call, s.threads[t].raw))
  }

  lemma LookedUpLater(run: Run, i: nat, c: CallId, raw: Raw)
    requires IsRun(run) && i + 1 < |run.states| && LookedUp(run, i, c, raw)
    ensures LookedUp(run, i + 1, c, raw)
  {
  }

  /** A call is only ever sent a response received for its own sequence while it was the live entry. */
  lemma {:induction false} ResponsesSourced(run: Run, i: nat)
    requires IsRun(run) && i < |run.states|
    ensures Sourced(run, i)
  {
    if i > 0 {
      ResponsesSourced(run, i - 1);
      SourcedStep(run, i - 1);
    }
  }

  /** Where a sent response comes from: it was sent before, or its holder sends it now. */
  lemma SentOrigin(s: State, a: Action, c: CallId, raw: Raw)
    requires Inv(s) && Enabled(s, a)
    requires c in Apply(s, a).calls && raw in Apply(s, a).calls[c].sent
    ensures (c in s.calls && raw in s.calls[c].sent)
         || (a.Send? && a.t in s.threads && s.threads[a.t].Removed?
             && s.threads[a.t].call == c && s.threads[a.t].raw == raw)
  {
  }

  /** Where a response a thread carries comes from: it carried it before, or it looks it up now. */
  lemma CarriedOrigin(s: State, a: Action, t: Thread)
    requires Enabled(s, a) && t in Apply(s, a).threads
    requires var pc := Apply(s, a).threads[t]; pc.Found? || pc.Won? || pc.Removed?
    ensures var pc := Apply(s, a).threads[t];
            || (t in s.threads && (s.threads[t].Found? || s.threads[t].Won? || s.threads[t].Removed?)
                && s.threads[t].call == pc.call && s.threads[t].raw == pc.raw)
            || (a == Get(t, pc.sequence, pc.raw) && pc.sequence in s.entries && s.entries[pc.sequence] == pc.call)
  {
    hide SequenceOf, Unusable;
    if Mover(a) != Some(t) {
      assert t in s.threads && s.threads[t] == Apply(s, a).threads[t];
    }
  }

  lemma SourcedStep(run: Run, i: nat)
    requires IsRun(run) && i < |run.actions| && Sourced(run, i)
    ensures Sourced(run, i + 1)
  {
    InvAlong(run, i);
    assert Taken(run, i);
    var s, a, s' := run.states[i], run.actions[i], run.states[i + 1];
    forall c, raw | c in s'.calls && raw in s'.calls[c].sent
      ensures LookedUp(run, i + 1, c, raw)
    {
      SentOrigin(s, a, c, raw);
      LookedUpLater(run, i, c, raw);
    }
    forall t | t in s'.threads && (s'.threads[t].Found? || s'.threads[t].Won? || s'.threads[t].Removed?)
      ensures LookedUp(run, i + 1, s'.threads[t].call, s'.threads[t].raw)
    {
      var pc := s'.threads[t];
      CarriedOrigin(s, a, t);
      if a == Get(t, pc.sequence, pc.raw) {
        assert pc.sequence == SequenceOf(pc.call);
      } else {
        LookedUpLater(run, i, pc.call, pc.raw);
      }
    }
  }

  // ------------------------------------------------------------- whose entry

  lemma {:induction false} CallsGrow(run: Run, g: nat, i: nat)
    requires IsRun(run) && g <= i < |run.states|
    ensures run.states[g].calls.Keys <= run.states[i].calls.Keys
    decreases i
  {
    hide Apply, Enabled;
    if g < i {
      CallsGrow(run, g, i - 1);
      assert Taken(run, i - 1);
      TablesStep(run.states[i - 1], run.actions[i - 1]);
    }
  }

  /** The allocation of `q` ends here: its call is added. */
  predicate Adds(s: State, a: Action, q: uint16) {
    a.Add? && PcOf(s, a.t).Free? && SequenceOf(PcOf(s, a.t).draw) == q
  }

  /** The draw of the call a step adds. */
  function AddedDraw(s: State, a: Action): nat {
    if a.Add? && PcOf(s, a.t).Free? then PcOf(s, a.t).draw else 0
  }

  /** The entry of `q` goes: expiry, eviction, or a consumer's `Remove`. */
  predicate Drops(s: State, a: Action, q: uint16) {
    a == Expire(q) || (a.Remove? && PcOf(s, a.t).Won? && PcOf(s, a.t).sequence == q)
  }

  /** Between `g` and `i` a call was added for `q`, and nothing has dropped it since. */
  ghost predicate AddedSince(run: Run, g: nat, i: nat, q: uint16)
    requires IsRun(run) && g <= i < |run.states|
  {
    exists j :: g <= j < i && Adds(run.states[j], run.actions[j], q)
                && forall k :: j < k < i ==> !Drops(run.states[k], run.actions[k], q)
  }

  lemma AddedSinceStep(run: Run, g: nat, i: nat, q: uint16)
    requires IsRun(run) && g <= i < |run.actions|
    ensures var s, a := run.states[i], run.actions[i];
            AddedSince(run, g, i + 1, q) <==> Adds(s, a, q) || (!Drops(s, a, q) && AddedSince(run, g, i, q))
  {
    hide Adds, Drops;
    var s, a := run.states[i], run.actions[i];
    if AddedSince(run, g, i, q) && !Drops(s, a, q) {
      var j :| g <= j < i && Adds(run.states[j], run.actions[j], q)
               && forall k :: j < k < i ==> !Drops(run.states[k], run.actions[k], q);
      assert forall k :: j < k < i + 1 ==> !Drops(run.states[k], run.actions[k], q);
    }
  }

  /** What a step does to the entry of `q`: a new call replaces it, it goes, or nothing happens. */
  lemma EntryStep(s: State, a: Action, q: uint16)
    requires Inv(s) && Enabled(s, a)
    ensures var s' := Apply(s, a);
            if Adds(s, a, q) then q in s'.entries && s'.entries[q] !in s.calls
            else if Drops(s, a, q) then q !in s'.entries
            else (q in s'.entries <==> q in s.entries) && (q in s.entries ==> s'.entries[q] == s.entries[q])
  {
    hide SequenceOf, CallOk, Unusable;
  }

  /**
   The history of an entry over any stretch of any run: it is a call made within the stretch if and only if
   one was added and not dropped since; otherwise it is the entry the stretch began with, or gone.
   */
  lemma {:induction false} EntryHistory(run: Run, g: nat, i: nat, q: uint16)
    requires IsRun(run) && g <= i < |run.states|
    ensures var before, now := run.states[g], run.states[i];
            if AddedSince(run, g, i, q) then q in now.entries && now.entries[q] !in before.calls
            else q in now.entries ==> q in before.entries && now.entries[q] == before.entries[q]
    decreases i
  {
    hide Adds, Drops, Apply, Enabled, Inv;
    if g < i {
      hide AddedSince;
      EntryHistory(run, g, i - 1, q);
      AddedSinceStep(run, g, i - 1, q);
      CallsGrow(run, g, i - 1);
      InvAlong(run, i - 1);
      assert Taken(run, i - 1);
      EntryStep(run.states[i - 1], run.actions[i - 1], q);
    }
  }

  /** Two allocations that end with the same sequence are a non-zero multiple of 65536 draws apart. */
  lemma AllocationsApart(run: Run, i: nat, j: nat)
    requires IsRun(run) && i < j < |run.actions| && run.actions[i].Add? && run.actions[j].Add?
    requires SequenceOf(AddedDraw(run.states[i], run.actions[i]))
             == SequenceOf(AddedDraw(run.states[j], run.actions[j]))
    ensures var c, d := AddedDraw(run.states[i], run.actions[i]), AddedDraw(run.states[j], run.actions[j]);
            c != d && (c - d) % SEQUENCE_MODULUS == 0
  {
    hide SequenceOf;
    assert Taken(run, i) && Taken(run, j);
    var c, d := AddedDraw(run.states[i], run.actions[i]), AddedDraw(run.states[j], run.actions[j]);
    SameSequenceApart(c, d);
    assert c in run.states[i + 1].calls;
    CallsGrow(run, i + 1, j);
    InvAlong(run, j);
    assert ThreadOk(run.states[j], PcOf(run.states[j], run.actions[j].t));
  }

  predicate LooksUp(a: Action, t: Thread) {
    (a.Get? || a.Miss?) && a.t == t
  }

  /** The step `g` with which the thread of step `i` found, or did not find, the entry it now acts on. */
  ghost predicate OwnLookup(run: Run, g: nat, i: nat)
    requires IsRun(run) && i < |run.actions|
  {
    && g < i
    && ((run.actions[i].Remove? && run.actions[g].Get?) || (run.actions[i].Add? && run.actions[g].Miss?))
    && LooksUp(run.actions[g], run.actions[i].t)
    && forall k :: g < k < i ==> !LooksUp(run.actions[k], run.actions[i].t)
  }

  /** How a thread comes to act on an entry: it just looked it up, or it did so before. */
  lemma LookupStep(s: State, a: Action, t: Thread)
    requires Enabled(s, a)
    requires var pc' := PcOf(Apply(s, a), t); pc'.Free? || pc'.Found? || pc'.Won?
    ensures var pc, pc' := PcOf(s, t), PcOf(Apply(s, a), t);
            if a == Miss(t) then pc'.Free? && SequenceOf(pc'.draw) !in s.entries
            else if LooksUp(a, t) then
              && a == Get(t, pc'.sequence, pc'.raw) && !pc'.Free?
              && pc'.sequence in s.entries && s.entries[pc'.sequence] == pc'.call
            else
              || pc == pc'
              || (pc.Found? && pc'.Won?
                  && pc.call == pc'.call && pc.sequence == pc'.sequence && pc.raw == pc'.raw)
  {
    hide SequenceOf;
  }

  /** Whatever a thread acts on, it looked up, and held on to since. */
  lemma {:induction false} LastLookup(run: Run, i: nat, t: Thread) returns (g: nat)
    requires IsRun(run) && i < |run.states|
    requires PcOf(run.states[i], t).Free? || PcOf(run.states[i], t).Found? || PcOf(run.states[i], t).Won?
    ensures g < i
    ensures LooksUp(run.actions[g], t) && forall k :: g < k < i ==> !LooksUp(run.actions[k], t)
    ensures var pc, before := PcOf(run.states[i], t), run.states[g];
            if pc.Free? then run.actions[g] == Miss(t) && SequenceOf(pc.draw) !in before.entries
            else
              && run.actions[g] == Get(t, pc.sequence, pc.raw)
              && pc.sequence in before.entries && before.entries[pc.sequence] == pc.call
  {
    assert i > 0;
    hide SequenceOf, Apply, Enabled, PcOf, LooksUp;
    var a := run.actions[i - 1];
    assert Taken(run, i - 1);
    LookupStep(run.states[i - 1], a, t);
    if LooksUp(a, t) {
      g := i - 1;
    } else {
      g := LastLookup(run, i - 1, t);
    }
  }

  lemma EveryLookup(run: Run, i: nat) returns (g: nat)
    requires IsRun(run) && i < |run.actions| && (run.actions[i].Remove? || run.actions[i].Add?)
    ensures OwnLookup(run, g, i)
  {
    assert Taken(run, i);
    g := LastLookup(run, i, run.actions[i].t);
  }

  lemma OwnLookupFound(run: Run, g: nat, i: nat)
    requires IsRun(run) && i < |run.actions| && OwnLookup(run, g, i)
    ensures var pc, before := PcOf(run.states[i], run.actions[i].t), run.states[g];
            && (pc.Free? ==> SequenceOf(pc.draw) !in before.entries)
            && (pc.Won? ==> pc.sequence in before.entries && before.entries[pc.sequence] == pc.call)
  {
    assert Taken(run, i);
    var last := LastLookup(run, i, run.actions[i].t);
    hide SequenceOf;
    assert last == g;
  }

  /**
   When `Remove` hits the wrong call. It drops a live entry other than the consumer's own if and only if,
   since the consumer's lookup, a call was added for the sequence and not dropped again.
   */
  lemma RemoveDropsOtherExactly(run: Run, g: nat, i: nat)
    requires IsRun(run) && i < |run.actions| && run.actions[i].Remove? && OwnLookup(run, g, i)
    ensures var s := run.states[i];
            var pc := PcOf(s, run.actions[i].t);
            && pc.Won?
            && (pc.sequence in s.entries && s.entries[pc.sequence] != pc.call <==> AddedSince(run, g, i, pc.sequence))
  {
    hide SequenceOf;
    assert Taken(run, i);
    var q := PcOf(run.states[i], run.actions[i].t).sequence;
    OwnLookupFound(run, g, i);
    InvAlong(run, g);
    EntryHistory(run, g, i, q);
  }

  /**
   When an allocation replaces a live call, so that two calls in flight share a sequence: if and only if,
   since the allocation found the sequence free, another call was added for it and not dropped again.
   */
  lemma AddReplacesExactly(run: Run, g: nat, i: nat)
    requires IsRun(run) && i < |run.actions| && run.actions[i].Add? && OwnLookup(run, g, i)
    ensures var s := run.states[i];
            var q := SequenceOf(AddedDraw(s, run.actions[i]));
            q in s.entries <==> AddedSince(run, g, i, q)
  {
    hide SequenceOf;
    assert Taken(run, i);
    OwnLookupFound(run, g, i);
    EntryHistory(run, g, i, SequenceOf(PcOf(run.states[i], run.actions[i].t).draw));
  }

  // -------------------------------------------------------- prompt allocations

  /** If the step adds a call, fewer than 65536 draws were made since the call's own. */
  predicate InTime(s: State, a: Action) {
    a.Add? ==> s.draws < AddedDraw(s, a) + SEQUENCE_MODULUS
  }

  /** No allocation lets 65536 draws go by between drawing its sequence and adding its call. */
  ghost predicate Prompt(run: Run)
    requires IsRun(run)
  {
    forall i: nat :: i < |run.actions| ==> InTime(run.states[i], run.actions[i])
  }

  /** A sequence found free less than 65536 draws ago is still free. */
  ghost predicate RecentFree(s: State) {
    forall t | t in s.threads && s.threads[t].Free? && s.draws < s.threads[t].draw + SEQUENCE_MODULUS ::
      SequenceOf(s.threads[t].draw) !in s.entries
  }

  lemma RecentFreeStep(s: State, a: Action)
    requires Inv(s) && Enabled(s, a) && RecentFree(s)
    requires InTime(s, a)
    ensures RecentFree(Apply(s, a))
  {
    hide SequenceOf, CallOk;
    var s' := Apply(s, a);
    forall t | t in s'.threads && s'.threads[t].Free? && s'.draws < s'.threads[t].draw + SEQUENCE_MODULUS
      ensures SequenceOf(s'.threads[t].draw) !in s'.entries
    {
      var d := s'.threads[t].draw;
      assert Allocating(PcOf(s, t), d) && ThreadOk(s, s.threads[t]);
      if a.Add? {
        var e := s.threads[a.t].draw;
        assert Allocating(s.threads[a.t], e) && ThreadOk(s, s.threads[a.t]);
        if SequenceOf(d) == SequenceOf(e) {
          SameSequenceFar(d, e);
        }
      }
    }
  }

  lemma {:induction false} FreeStaysFree(run: Run, i: nat)
    requires IsRun(run) && Prompt(run) && i < |run.states|
    ensures RecentFree(run.states[i])
  {
    hide Inv, RecentFree, LatestEntries, Apply, Enabled, InTime;
    InvAtStart();
    if i > 0 {
      FreeStaysFree(run, i - 1);
      InvAlong(run, i - 1);
      assert Taken(run, i - 1) && InTime(run.states[i - 1], run.actions[i - 1]);
      RecentFreeStep(run.states[i - 1], run.actions[i - 1]);
    }
  }

  /** Prompt allocations always find their sequence still free: no live call is ever replaced. */
  lemma PromptAddsReplaceNothing(run: Run, i: nat)
    requires IsRun(run) && Prompt(run) && i < |run.actions| && run.actions[i].Add?
    ensures SequenceOf(AddedDraw(run.states[i], run.actions[i])) !in run.states[i].entries
  {
    assert Taken(run, i) && InTime(run.states[i], run.actions[i]);
    FreeStaysFree(run, i);
  }

  /**
   RFC 0001 (PRHP), section 4.2, for prompt allocations: a call in flight keeps its sequence to itself, as
   the one entry for it, until it expires, is evicted or is removed.
   */
  lemma {:induction false} PromptCallsKeepSequence(run: Run, g: nat, i: nat, q: uint16)
    requires IsRun(run) && Prompt(run) && g <= i < |run.states| && q in run.states[g].entries
    requires forall k :: g <= k < i ==> !Drops(run.states[k], run.actions[k], q)
    ensures q in run.states[i].entries && run.states[i].entries[q] == run.states[g].entries[q]
    decreases i
  {
    hide Inv, Apply, Enabled, SequenceOf, Drops, InTime;
    if g < i {
      PromptCallsKeepSequence(run, g, i - 1, q);
      InvAlong(run, i - 1);
      assert Taken(run, i - 1);
      EntryStep(run.states[i - 1], run.actions[i - 1], q);
      if run.actions[i - 1].Add? {
        PromptAddsReplaceNothing(run, i - 1);
      }
    }
  }

  /** The entry of a sequence is the latest call made for it. */
  ghost predicate LatestEntries(s: State) {
    forall c, q | c in s.calls && q in s.entries && q == SequenceOf(c) :: c <= s.entries[q]
  }

  lemma LatestStep(s: State, a: Action)
    requires CallsOk(s) && Enabled(s, a) && LatestEntries(s)
    requires InTime(s, a)
    ensures LatestEntries(Apply(s, a))
  {
    hide SequenceOf, CallOk, Unusable;
    if a.Add? {
      var d := PcOf(s, a.t).draw;
      forall c | c in s.calls && SequenceOf(c) == SequenceOf(d)
        ensures c <= d
      {
        if c != d {
          SameSequenceFar(c, d);
        }
      }
    }
  }

  lemma {:induction false} EntriesStayLatest(run: Run, i: nat)
    requires IsRun(run) && Prompt(run) && i < |run.states|
    ensures LatestEntries(run.states[i])
  {
    hide EntriesOk, ThreadsOk, RecentFree, LatestEntries, Apply, Enabled, InTime, CallsOk;
    InvAtStart();
    if i > 0 {
      EntriesStayLatest(run, i - 1);
      InvAlong(run, i - 1);
      assert Taken(run, i - 1) && InTime(run.states[i - 1], run.actions[i - 1]);
      LatestStep(run.states[i - 1], run.actions[i - 1]);
    }
  }

  /**
   `Remove` drops the consumer's own call or nothing, provided allocations are prompt and fewer than
   65536 draws were made since the call's own.
   */
  lemma RemoveDropsOwn(run: Run, i: nat)
    requires IsRun(run) && Prompt(run) && i < |run.actions| && run.actions[i].Remove?
    requires var pc := PcOf(run.states[i], run.actions[i].t);
             pc.Won? ==> run.states[i].draws < pc.call + SEQUENCE_MODULUS
    ensures var s := run.states[i];
            var pc := PcOf(s, run.actions[i].t);
            pc.Won? && (pc.sequence in s.entries ==> s.entries[pc.sequence] == pc.call)
  {
    assert Taken(run, i);
    InvAlong(run, i);
    EntriesStayLatest(run, i);
    OwnEntry(run.states[i], run.actions[i].t);
  }

  lemma OwnEntry(s: State, t: Thread)
    requires Inv(s) && LatestEntries(s) && PcOf(s, t).Won?
    requires s.draws < PcOf(s, t).call + SEQUENCE_MODULUS
    ensures var pc := PcOf(s, t);
            pc.sequence in s.entries ==> s.entries[pc.sequence] == pc.call
  {
    hide SequenceOf, CallOk;
    var pc := s.threads[t];
    assert ThreadOk(s, pc);
    if pc.sequence in s.entries && s.entries[pc.sequence] != pc.call {
      SameSequenceFar(s.entries[pc.sequence], pc.call);
    }
  }

  // ------------------------------------ both bounds are needed: two witnesses

  function Last(run: Run): State {
    if run.states == [] then START else run.states[|run.states| - 1]
  }

  lemma Extend(run: Run, a: Action) returns (longer: Run)
    requires IsRun(run) && Enabled(Last(run), a)
    ensures IsRun(longer) && Last(longer) == Apply(Last(run), a) && |longer.actions| == |run.actions| + 1
    ensures longer.actions == run.actions + [a] && longer.states[|run.actions|] == Last(run)
    ensures Prompt(run) && InTime(Last(run), a) ==> Prompt(longer)
  {
    hide Apply, Enabled;
    longer := Run(run.states + [Apply(Last(run), a)], run.actions + [a]);
    forall i: nat | i < |longer.actions|
      ensures Taken(longer, i)
    {
      assert i < |run.actions| ==> Taken(run, i);
    }
    hide InTime;
    if Prompt(run) && InTime(Last(run), a) {
      forall i: nat | i < |longer.actions|
        ensures InTime(longer.states[i], longer.actions[i])
      {
        assert i < |run.actions| ==> InTime(run.states[i], run.actions[i]);
      }
    }
  }

  /** No thread but 1 has moved. */
  ghost predicate OnlyOneMoved(before: State, s: State) {
    forall t: Thread :: t != 1 ==> PcOf(s, t) == PcOf(before, t)
  }

  lemma MovedOnly(a: State, b: State, c: State)
    requires OnlyOneMoved(a, b) && OnlyOneMoved(b, c)
    ensures OnlyOneMoved(a, c)
  {
    forall t: Thread | t != 1
      ensures PcOf(c, t) == PcOf(a, t)
    {
      assert PcOf(b, t) == PcOf(a, t);
    }
  }

  /** Thread 1 has made all draws up to `k` and is idle again; no call is live. */
  ghost predicate Climbed(before: State, s: State, k: nat) {
    s.draws == k && s.entries == map[] && PcOf(s, 1) == Idle && OnlyOneMoved(before, s)
  }

  /** Thread 1 holds the draw just made, finds its sequence free, and adds its call. */
  lemma AllocateFree(run: Run) returns (longer: Run)
    requires IsRun(run) && Last(run).entries == map[]
    requires var s := Last(run); PcOf(s, 1).Drawn? && PcOf(s, 1).draw == s.draws && SequenceOf(s.draws) != 0
    ensures IsRun(longer) && (Prompt(run) ==> Prompt(longer))
    ensures var s, s' := Last(run), Last(longer);
            && s'.draws == s.draws && s'.entries == map[SequenceOf(s.draws) := s.draws]
            && PcOf(s', 1) == Idle && OnlyOneMoved(s, s')
            && s.draws in s'.calls && s'.calls[s.draws] == FRESH_CALL
  {
    hide SequenceOf, IsRun, Prompt;
    longer := Extend(run, Miss(1));
    longer := Extend(longer, Add(1));
  }

  /** Thread 1 allocates once more, and the call expires. */
  lemma Round(run: Run, k: nat) returns (longer: Run)
    requires IsRun(run) && Climbed(Last(run), Last(run), k) && SequenceOf(k + 1) != 0
    ensures IsRun(longer) && Climbed(Last(run), Last(longer), k + 1) && (Prompt(run) ==> Prompt(longer))
  {
    hide SequenceOf, IsRun, Prompt;
    var drawn := Extend(run, Draw(1));
    var added := AllocateFree(drawn);
    longer := Extend(added, Expire(SequenceOf(k + 1)));
    assert Last(longer).entries == map[];
    MovedOnly(Last(run), Last(drawn), Last(added));
    MovedOnly(Last(run), Last(added), Last(longer));
  }

  /** From any state after the first draw with no live call: thread 1 allocates on, each call expiring at once. */
  lemma {:induction false} Climb(base: Run, k: nat) returns (run: Run)
    requires IsRun(base) && Climbed(Last(base), Last(base), 1) && 1 <= k < SEQUENCE_MODULUS
    ensures IsRun(run) && Climbed(Last(base), Last(run), k) && (Prompt(base) ==> Prompt(run))
  {
    if k == 1 {
      run := base;
    } else {
      SequenceIgnoresWrap(k);
      hide SequenceOf, IsRun, Prompt;
      hide OnlyOneMoved;
      var before := Climb(base, k - 1);
      run := Round(before, k - 1);
      MovedOnly(Last(base), Last(before), Last(run));
    }
  }

  /** 65536 draws after the first, thread 1 has added a call under the sequence of the first, 1. */
  ghost predicate Overtaken(before: State, s: State) {
    && s.draws == SEQUENCE_MODULUS + 1 && s.entries == map[1 := s.draws] && OnlyOneMoved(before, s)
    && s.draws in s.calls && s.calls[s.draws] == FRESH_CALL
  }

  /** The draw that yields the zero sequence is drawn again. */
  lemma SkipZero(run: Run) returns (longer: Run)
    requires IsRun(run) && Climbed(Last(run), Last(run), SEQUENCE_MODULUS - 1)
    ensures IsRun(longer) && (Prompt(run) ==> Prompt(longer))
    ensures var s := Last(longer);
            && s.draws == SEQUENCE_MODULUS + 1 && s.entries == map[] && PcOf(s, 1) == Drawn(s.draws, 1)
            && OnlyOneMoved(Last(run), s)
  {
    SequenceIgnoresWrap(SEQUENCE_MODULUS);
    hide SequenceOf, IsRun, Prompt;
    longer := Extend(run, Draw(1));
    longer := Extend(longer, Retry(1));
    longer := Extend(longer, Redraw(1));
  }

  lemma Overtake(base: Run) returns (run: Run)
    requires IsRun(base) && Climbed(Last(base), Last(base), 1)
    ensures IsRun(run) && Overtaken(Last(base), Last(run)) && (Prompt(base) ==> Prompt(run))
  {
    SequenceIgnoresWrap(SEQUENCE_MODULUS + 1);
    hide SequenceOf, IsRun, Prompt;
    hide OnlyOneMoved;
    var climbed := Climb(base, SEQUENCE_MODULUS - 1);
    var skipped := SkipZero(climbed);
    run := AllocateFree(skipped);
    MovedOnly(Last(base), Last(climbed), Last(skipped));
    MovedOnly(Last(base), Last(skipped), Last(run));
  }

  /** The last step is a `Remove` of the consumer of `call`, made at `draws`, that drops a live entry not its own. */
  ghost predicate EndsRemovingOther(run: Run, call: CallId, draws: nat)
    requires IsRun(run)
  {
    && run.actions != []
    && var i := |run.actions| - 1;
       var s := run.states[i];
       && run.actions[i].Remove? && s.draws == draws
       && var pc := PcOf(s, run.actions[i].t);
          pc.Won? && pc.call == call && pc.sequence in s.entries && s.entries[pc.sequence] != call
  }

  /** Thread 0 has drawn 1 and found it free, and stalls there. */
  lemma FirstCallStalls() returns (run: Run)
    ensures IsRun(run) && Climbed(Last(run), Last(run), 1)
    ensures PcOf(Last(run), 0) == Free(1) && PcOf(Last(run), 2) == Idle
  {
    SequenceIgnoresWrap(1);
    run := Run([START], []);
    assert IsRun(run);
    hide SequenceOf, IsRun, Prompt;
    run := Extend(run, Draw(0));
    run := Extend(run, Miss(0));
  }

  /** Thread 2 has looked up the call that overtook, and thread 0 at last adds its own. */
  lemma StaleAdd() returns (run: Run)
    ensures IsRun(run)
    ensures var s := Last(run);
            && s.draws == SEQUENCE_MODULUS + 1 && s.entries == map[1 := 1]
            && PcOf(s, 2) == Found(s.draws, 1, []) && s.draws in s.calls && !s.calls[s.draws].consumed
  {
    SequenceIgnoresWrap(1);
    hide SequenceOf, IsRun, Prompt;
    run := FirstCallStalls();
    run := Overtake(run);
    assert PcOf(Last(run), 0) == Free(1) && PcOf(Last(run), 2) == Idle;
    hide OnlyOneMoved;
    run := Extend(run, Get(2, 1, []));
    run := Extend(run, Add(0));
    assert Last(run).entries == map[1 := 1];
  }

  /**
   Without promptness `Remove` can drop another caller's live entry even though no draw at all was made
   since the consumed call's own: an allocation that stalled for 65536 draws adds its call in between.
   */
  lemma StaleAddLosesEntry() returns (run: Run)
    ensures IsRun(run) && EndsRemovingOther(run, SEQUENCE_MODULUS + 1, SEQUENCE_MODULUS + 1)
  {
    hide SequenceOf, IsRun, Prompt;
    run := StaleAdd();
    run := Extend(run, Win(2));
    run := Extend(run, Remove(2));
  }

  /** The last step adds a call in place of another thread's live one, which nobody has consumed. */
  ghost predicate EndsReplacing(run: Run)
    requires IsRun(run)
  {
    && run.actions != []
    && var i := |run.actions| - 1;
       var s := run.states[i];
       var q := SequenceOf(AddedDraw(s, run.actions[i]));
       && run.actions[i].Add? && q in s.entries && s.entries[q] != AddedDraw(s, run.actions[i])
       && s.entries[q] in s.calls && !s.calls[s.entries[q]].consumed
       && q in Last(run).entries && Last(run).entries[q] == AddedDraw(s, run.actions[i])
  }

  /** The same stalled allocation replaces the live call that overtook it. */
  lemma StaleAddReplacesCall() returns (run: Run)
    ensures IsRun(run) && EndsReplacing(run)
  {
    SequenceIgnoresWrap(1);
    hide SequenceOf, Prompt;
    run := FirstCallStalls();
    run := Overtake(run);
    assert PcOf(Last(run), 0) == Free(1);
    hide OnlyOneMoved, IsRun;
    run := Extend(run, Add(0));
  }

  /** The first call is looked up by thread 2. */
  lemma FirstCallFound() returns (run: Run)
    ensures IsRun(run) && Prompt(run)
    ensures var s := Last(run);
            && s.draws == 1 && s.entries == map[1 := 1] && 1 in s.calls && s.calls[1] == FRESH_CALL
            && PcOf(s, 1) == Idle && PcOf(s, 2) == Found(1, 1, [])
  {
    SequenceIgnoresWrap(1);
    run := Run([START], []);
    assert IsRun(run) && Prompt(run);
    hide SequenceOf, IsRun, Prompt;
    run := Extend(run, Draw(0));
    run := Extend(run, Miss(0));
    run := Extend(run, Add(0));
    run := Extend(run, Get(2, 1, []));
  }

  /** The first call is won by thread 2, and expires before it is removed. */
  lemma FirstCallWon() returns (run: Run)
    ensures IsRun(run) && Prompt(run) && Climbed(Last(run), Last(run), 1) && PcOf(Last(run), 2) == Won(1, 1, [])
  {
    hide SequenceOf, IsRun, Prompt;
    run := FirstCallFound();
    run := Extend(run, Win(2));
    run := Extend(run, Expire(1));
    assert Last(run).entries == map[];
  }

  /** With prompt allocations it still can once 65536 draws were made since the consumed call's own. */
  lemma LateRemoveLosesEntry() returns (run: Run)
    ensures IsRun(run) && Prompt(run) && EndsRemovingOther(run, 1, 1 + SEQUENCE_MODULUS)
  {
    hide SequenceOf, IsRun, Prompt;
    run := FirstCallWon();
    run := Overtake(run);
    assert PcOf(Last(run), 2) == Won(1, 1, []);
    run := Extend(run, Remove(2));
  }
}
