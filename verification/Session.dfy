/**
 One host session: routing of received reports, the read loop that owns the session's lifetime, the cached
 card and its getters.
 */
module Session {
  import opened Wrappers
  import opened Bytes
  import opened Protocol
  import Caller

  type Raw = seq<uint8>

  // ------------------------------------------------------------------ routing

  /** The report is a signal the session has a handler for. */
  predicate IsCardSignal(raw: Raw) {
    var r := DecodeHeader(raw);
    r.Ok? && r.value.messageType == SIGNAL && r.value.opcode == CARD_STATE
  }

  predicate IsResponse(raw: Raw) {
    DecodeHeader(raw).Ok? && DecodeHeader(raw).value.messageType == RESPONSE
  }

  /** The cached card after one more received report. */
  function Latest(card: Card, raw: Raw): Card {
    if IsCardSignal(raw) && DecodeCardStateSignal(raw).Ok? then DecodeCardStateSignal(raw).value else card
  }

  /** The cached card after a run of received reports. */
  function Cached(card: Card, reports: seq<Raw>): Card {
    if reports == [] then card else Latest(Cached(card, reports[..|reports| - 1]), reports[|reports| - 1])
  }

  lemma {:induction false} CachedConcat(card: Card, a: seq<Raw>, b: seq<Raw>)
    ensures Cached(card, a + b) == Cached(Cached(card, a), b)
    decreases |b|
  {
    if b == [] {
      assert a + b == a;
    } else {
      assert (a + b)[..|a + b| - 1] == a + b[..|b| - 1];
      CachedConcat(card, a, b[..|b| - 1]);
    }
  }

  /** Reports that are no valid card state, whatever else they are, leave the card alone. */
  lemma {:induction false} OthersIgnored(card: Card, reports: seq<Raw>)
    requires forall i :: 0 <= i < |reports| ==> DecodeCardStateSignal(reports[i]).Err?
    ensures Cached(card, reports) == card
  {
    if reports != [] {
      OthersIgnored(card, reports[..|reports| - 1]);
    }
  }

  /** The cached card is the last valid card state received, else what it was before. */
  lemma LastValidWins(card: Card, reports: seq<Raw>, k: nat)
    requires k < |reports| && DecodeCardStateSignal(reports[k]).Ok?
    requires forall i :: k < i < |reports| ==> DecodeCardStateSignal(reports[i]).Err?
    ensures Cached(card, reports) == DecodeCardStateSignal(reports[k]).value
  {
    var upto, rest := reports[..k + 1], reports[k + 1..];
    assert upto + rest == reports;
    CachedConcat(card, upto, rest);
    assert upto[..k] == reports[..k];
    OthersIgnored(Cached(card, upto), rest);
  }

  // ------------------------------------------------------------------ getters

  function BigEndian(s: seq<uint8>): nat {
    if s == [] then 0 else 0x100 * BigEndian(s[..|s| - 1]) + s[|s| - 1]
  }

  /** A big-endian number of a fixed width determines its bytes. */
  lemma {:induction false} BigEndianInjective(a: seq<uint8>, b: seq<uint8>)
    requires |a| == |b| && BigEndian(a) == BigEndian(b)
    ensures a == b
  {
    if a != [] {
      var n := |a| - 1;
      assert a[n] == BigEndian(a) % 0x100 && b[n] == BigEndian(b) % 0x100;
      BigEndianInjective(a[..n], b[..n]);
      assert a == a[..n] + [a[n]] && b == b[..n] + [b[n]];
    }
  }

  /** The first of eight bytes is the most significant one. */
  lemma BigEndianOfEight(s: seq<uint8>)
    requires |s| == 8
    ensures BigEndian(s) == 0x100_0000_0000_0000 * s[0] as int + 0x1_0000_0000_0000 * s[1] as int
                            + 0x100_0000_0000 * s[2] as int + 0x1_0000_0000 * s[3] as int + 0x100_0000 * s[4] as int
                            + 0x1_0000 * s[5] as int + 0x100 * s[6] as int + s[7] as int
  {
    BigEndianSnoc(s[..7], s[7]);
    BigEndianSnoc(s[..6], s[6]);
    BigEndianSnoc(s[..5], s[5]);
    BigEndianSnoc(s[..4], s[4]);
    BigEndianSnoc(s[..3], s[3]);
    BigEndianSnoc(s[..2], s[2]);
    BigEndianSnoc(s[..1], s[1]);
    BigEndianSnoc(s[..0], s[0]);
    assert s[..7] + [s[7]] == s && s[..6] + [s[6]] == s[..7] && s[..5] + [s[5]] == s[..6] && s[..4] + [s[4]] == s[..5];
    assert s[..3] + [s[3]] == s[..4] && s[..2] + [s[2]] == s[..3] && s[..1] + [s[1]] == s[..2];
    assert s[..0] + [s[0]] == s[..1];
  }

  lemma BigEndianSnoc(s: seq<uint8>, b: uint8)
    ensures BigEndian(s + [b]) == 0x100 * BigEndian(s) + b
  {
    assert (s + [b])[..|s|] == s;
  }

  /** Each byte adds its eight bits: an eight-byte number fits 64. */
  lemma {:induction false} BigEndianBound(s: seq<uint8>)
    ensures BigEndian(s) < Pow256(|s|)
  {
    if s != [] {
      BigEndianBound(s[..|s| - 1]);
    }
  }

  function Pow256(n: nat): nat {
    if n == 0 then 1 else 0x100 * Pow256(n - 1)
  }

  function AimeIdOf(card: Card): Option<seq<uint8>> {
    if card.cardType == CARD_MIFARE && card.luid != Zeros(|card.luid|) then Some(card.luid) else None
  }

  function MifareBlocksOf(card: Card): Option<seq<uint8>> {
    if card.cardType == CARD_MIFARE then Some(card.blocks) else None
  }

  function FelicaIdOf(card: Card): Option<nat> {
    if card.cardType == CARD_FELICA then Some(BigEndian(card.idm)) else None
  }

  // --------------------------------------------------------------- the session

  /** What one transport read gives. */
  datatype Read = Report(raw: Raw) | Broken

  /** The reports received before the first failing read. */
  function Received(input: seq<Read>): (r: seq<Raw>)
    ensures |r| <= |input| && forall k :: 0 <= k < |r| ==> input[k] == Report(r[k])
    ensures |r| < |input| ==> input[|r|].Broken?
  {
    if input == [] || input[0].Broken? then [] else [input[0].raw] + Received(input[1..])
  }

  /** Version 0.1, read off a reply. */
  predicate SaysVersion01(reply: Raw) {
    DecodeGetVersionResponse(reply) == Ok(Version(0, 1))
  }

  /** The report answers the call of this sequence. */
  predicate AnswersCall(raw: Raw, sequence: uint16) {
    IsResponse(raw) && DecodeHeader(raw).value.sequence == sequence
  }

  /** How many of the arrivals come before the first that answers. */
  function Waited(arrivals: seq<Raw>, sequence: uint16): (n: nat)
    ensures n <= |arrivals| && forall k :: 0 <= k < n ==> !AnswersCall(arrivals[k], sequence)
    ensures n < |arrivals| ==> AnswersCall(arrivals[n], sequence)
  {
    if arrivals == [] || AnswersCall(arrivals[0], sequence) then 0 else 1 + Waited(arrivals[1..], sequence)
  }

  /** What ends a wait that no answer ends. */
  datatype End = TimedOut | Cancelled | SessionOver

  datatype VerifyError =
    | NoSequence(error: Caller.AllocateError)
    | NotWritten
    | BadReply(reason: Error)
    | UnsupportedVersion
    | Timeout
    | ContextDone
    | ReadLoopEnded

  function EndError(end: End): VerifyError {
    match end
    case TimedOut => Timeout
    case Cancelled => ContextDone
    case SessionOver => ReadLoopEnded
  }

  /** Only a version reply saying 0.1 will do. */
  function Judge(reply: Raw): Result<(), VerifyError> {
    match DecodeGetVersionResponse(reply)
    case Err(e) => Err(BadReply(e))
    case Ok(version) => if version == Version(0, 1) then Ok(()) else Err(UnsupportedVersion)
  }

  /** The verdict, read off the bytes of the reply. */
  lemma JudgedByBytes(reply: Raw)
    ensures var told := |reply| == 64 && reply[..2] == [0x02, 0x01] && reply[2..4] != [0, 0] && reply[4] == 0;
            && (SaysVersion01(reply) <==> told && reply[5] == 0 && reply[6] == 1)
            && (Judge(reply).Ok? <==> SaysVersion01(reply))
            && (Judge(reply) == Err(UnsupportedVersion) <==> told && !SaysVersion01(reply))
  {
    hide DecodeGetVersionResponse;
    if |reply| == 64 {
      VersionBytes(reply, Version(reply[5], reply[6]));
      assert reply[..2] == [reply[0], reply[1]] && reply[2..4] == [reply[2], reply[3]];
    }
    if DecodeGetVersionResponse(reply).Ok? {
      VersionBytes(reply, DecodeGetVersionResponse(reply).value);
    }
  }

  class Session {
    var latest: Card
    var failed: bool
    var done: bool
    const caller: Caller.Caller

    ghost predicate Valid()
      reads this, caller, caller.calls.Values
    {
      caller.Valid()
    }

    constructor (caller: Caller.Caller)
      requires caller.Valid()
      ensures Valid() && this.caller == caller && latest == NO_CARD && !failed && !done
    {
      this.caller := caller;
      latest, failed, done := NO_CARD, false, false;
    }

    /** Routes one report: responses to the live call of their sequence, card states to the cache. */
    method Dispatch(raw: Raw) returns (r: Result<(), Error>)
      requires Valid()
      modifies this`latest, caller`calls, caller.calls.Values
      ensures Valid() && caller.draws == old(caller.draws)
      ensures latest == Latest(old(latest), raw)
      ensures caller.calls.Values <= old(caller.calls.Values)
      ensures DecodeHeader(raw).Err? ==> r == Err(DecodeHeader(raw).error)
      ensures IsCardSignal(raw) ==> (r.Ok? <==> DecodeCardStateSignal(raw).Ok?)
      ensures DecodeHeader(raw).Ok? && !IsResponse(raw) && !IsCardSignal(raw) ==>
                r == Err(if DecodeHeader(raw).value.messageType == SIGNAL then UnknownSignal else UnexpectedType)
      ensures !IsResponse(raw) ==> caller.calls == old(caller.calls)
      ensures !IsResponse(raw) ==> forall s | s in old(caller.calls) :: unchanged(old(caller.calls)[s])
      ensures IsResponse(raw) ==>
                var sequence := DecodeHeader(raw).value.sequence;
                if sequence in old(caller.calls) && !old(caller.calls[sequence].consumed) then
                  && r.Ok?
                  && caller.calls == old(caller.calls) - {sequence}
                  && old(caller.calls)[sequence].response == [raw]
                  && (forall s | s in old(caller.calls) && s != sequence :: unchanged(old(caller.calls)[s]))
                else
                  && r == Err(UnknownSequence)
                  && caller.calls == old(caller.calls)
                  && (forall s | s in old(caller.calls) :: unchanged(old(caller.calls)[s]))
    {
      var decoded := DecodeHeader(raw);
      if decoded.Err? {
        return Err(decoded.error);
      }
      var header := decoded.value;
      if header.messageType == RESPONSE {
        r := caller.Consume(header.sequence, raw);
        return;
      }
      if header.messageType == SIGNAL {
        if header.opcode != CARD_STATE {
          return Err(UnknownSignal);
        }
        var card := DecodeCardStateSignal(raw);
        if card.Err? {
          return Err(card.error);
        }
        latest := card.value;
        return Ok(());
      }
      r := Err(UnexpectedType);
    }

    /**
     The read loop over whatever the transport gives: the cache follows the reports received, and the
     first failing read clears it and ends the session.
     */
    method ReadLoop(input: seq<Read>)
      requires Valid() && !done
      modifies this`latest, this`failed, this`done, caller`calls, caller.calls.Values
      ensures Valid()
      ensures |Received(input)| == |input| ==> !done && latest == Cached(old(latest), Received(input))
      ensures |Received(input)| < |input| ==> done && failed && latest == NO_CARD
    {
      hide Latest, DecodeHeader, DecodeCardStateSignal, Received;
      ghost var reports := Received(input);
      var i := 0;
      while i < |input| && input[i].Report?
        invariant i <= |reports| && Valid() && !done
        invariant caller.calls.Values <= old(caller.calls.Values)
        invariant latest == Cached(old(latest), reports[..i])
      {
        assert reports[..i + 1][..i] == reports[..i];
        var _ := Dispatch(input[i].raw);
        i := i + 1;
      }
      assert reports[..|reports|] == reports;
      if i < |input| {
        latest := NO_CARD;
        failed := true;
        done := true;
      }
    }

    /** The wait for a call's answer while the read loop routes what arrives. */
    method Await(sequence: uint16, call: Caller.PendingCall, arrivals: seq<Raw>)
      requires Valid() && sequence in caller.calls && caller.calls[sequence] == call
      requires !call.consumed && call.response == []
      modifies this`latest, caller`calls, caller.calls.Values
      ensures Valid() && caller.draws == old(caller.draws)
      ensures var n := Waited(arrivals, sequence);
              if n < |arrivals| then
                call.response == [arrivals[n]] && latest == Cached(old(latest), arrivals[..n + 1])
              else
                call.response == [] && latest == Cached(old(latest), arrivals)
    {
      hide DecodeHeader, DecodeCardStateSignal, Latest;
      var n := 0;
      while n < |arrivals| && call.response == []
        invariant n <= |arrivals|
        invariant Valid() && caller.draws == old(caller.draws)
        invariant caller.calls.Values <= old(caller.calls.Values)
        invariant latest == Cached(old(latest), arrivals[..n])
        invariant if call.response == [] then
                    && sequence in caller.calls && caller.calls[sequence] == call && !call.consumed
                    && (forall k :: 0 <= k < n ==> !AnswersCall(arrivals[k], sequence))
                  else
                    && n > 0 && call.response == [arrivals[n - 1]] && AnswersCall(arrivals[n - 1], sequence)
                    && (forall k :: 0 <= k < n - 1 ==> !AnswersCall(arrivals[k], sequence))
      {
        assert arrivals[..n + 1][..n] == arrivals[..n];
        var _ := Dispatch(arrivals[n]);
        n := n + 1;
      }
      assert arrivals[..|arrivals|] == arrivals;
    }

    static method JudgeReply(reply: Raw) returns (r: Result<(), VerifyError>)
      ensures r == Judge(reply) && (r.Ok? <==> SaysVersion01(reply)) && (r.Err? ==> !r.error.NoSequence?)
    {
      hide DecodeGetVersionResponse;
      var version := DecodeGetVersionResponse(reply);
      if version.Err? {
        return Err(BadReply(version.error));
      }
      if version.value.major != 0 || version.value.minor != 1 {
        return Err(UnsupportedVersion);
      }
      r := Ok(());
    }

    /** The call the version request is made for, in the table under the sequence just drawn. */
    method Register(timeout: int) returns (r: Result<(uint16, Caller.PendingCall), Caller.AllocateError>)
      requires Valid()
      modifies caller
      ensures Valid()
      ensures timeout <= 0 ==> r == Err(Caller.InvalidTimeout)
      ensures timeout > 0 && |old(caller.calls.Keys)| <= Caller.CALLER_CAPACITY ==> r.Ok?
      ensures r.Ok? ==>
                && timeout > 0 && r.value.0 == Caller.SequenceOf(caller.draws)
                && r.value.0 in caller.calls && caller.calls[r.value.0] == r.value.1 && fresh(r.value.1)
                && !r.value.1.consumed && r.value.1.response == []
                && caller.calls.Values <= old(caller.calls.Values) + {r.value.1}
    {
      hide Caller.SequenceOf, Caller.AllTaken;
      r := caller.Allocate(timeout);
    }

    method AwaitVersion(sequence: uint16, call: Caller.PendingCall, arrivals: seq<Raw>, end: End)
      returns (r: Result<(), VerifyError>)
      requires Valid() && sequence in caller.calls && caller.calls[sequence] == call
      requires !call.consumed && call.response == []
      modifies this`latest, caller`calls, caller.calls.Values
      ensures Valid() && caller.draws == old(caller.draws) && (r.Err? ==> !r.error.NoSequence?)
      ensures var n := Waited(arrivals, sequence);
              if n < |arrivals| then
                && r == Judge(arrivals[n]) && (r.Ok? <==> SaysVersion01(arrivals[n]))
                && latest == Cached(old(latest), arrivals[..n + 1])
              else
                r == Err(EndError(end)) && latest == Cached(old(latest), arrivals)
    {
      hide DecodeHeader, Judge, SaysVersion01, Latest, AnswersCall, Waited, Cached;
      Await(sequence, call, arrivals);
      if call.response == [] {
        return Err(EndError(end));
      }
      r := JudgeReply(call.response[0]);
    }

    /**
     The version check, given whether the transport took the request, what the read loop then receives, and
     what ends the wait if no answer does. It judges the first report that answers the sequence allocated
     here, and no other: with a table within capacity, `r` is its verdict.
     */
    method VerifyVersion(timeout: int, accepted: bool, arrivals: seq<Raw>, end: End)
      returns (r: Result<(), VerifyError>)
      requires Valid()
      modifies this`latest, caller, caller.calls.Values
      ensures Valid()
      ensures timeout <= 0 ==> r == Err(NoSequence(Caller.InvalidTimeout))
      ensures r.Err? && r.error.NoSequence? ==> latest == old(latest)
      ensures !accepted ==> r.Err? && latest == old(latest)
      ensures timeout > 0 && |old(caller.calls.Keys)| <= Caller.CALLER_CAPACITY ==>
                if !accepted then r == Err(NotWritten)
                else
                  var n := Waited(arrivals, Caller.SequenceOf(caller.draws));
                  if n < |arrivals| then r == Judge(arrivals[n]) && latest == Cached(old(latest), arrivals[..n + 1])
                  else r == Err(EndError(end)) && latest == Cached(old(latest), arrivals)
      ensures r.Ok? ==>
                && timeout > 0 && accepted
                && var n := Waited(arrivals, Caller.SequenceOf(caller.draws));
                   n < |arrivals| && SaysVersion01(arrivals[n])
    {
      hide DecodeHeader, Judge, SaysVersion01, Latest, AnswersCall, Waited, Cached, EndError, Caller.SequenceOf;
      var call := Register(timeout);
      if call.Err? {
        return Err(NoSequence(call.error));
      }
      if !accepted {
        return Err(NotWritten);
      }
      r := AwaitVersion(call.value.0, call.value.1, arrivals, end);
    }

    method AimeId() returns (id: Option<seq<uint8>>)
      ensures id == AimeIdOf(latest)
    {
      var card := latest;
      if card.cardType != CARD_MIFARE {
        return None;
      }
      for i := 0 to |card.luid|
        invariant card.luid[..i] == Zeros(i)
      {
        if card.luid[i] != 0 {
          return Some(card.luid);
        }
      }
      assert card.luid[..|card.luid|] == card.luid;
      id := None;
    }
  }

  // ------------------------------------------------- the loop among its readers

  /** The read loop's position: reading, or in the three steps that end the session. */
  datatype LoopPc = Reading | Clearing | Failing | Closing | Over

  /** What the session's other goroutines can see, plus everything received so far. */
  datatype Loop = Loop(pc: LoopPc, received: seq<Raw>, latest: Card, failed: bool, done: bool)

  const STARTED := Loop(Reading, [], NO_CARD, false, false)

  datatype LoopAction = Receive(raw: Raw) | Break | ClearCard | StoreFailure | CloseDone

  predicate LoopEnabled(l: Loop, a: LoopAction) {
    match a
    case Receive(_) => l.pc.Reading?
    case Break => l.pc.Reading?
    case ClearCard => l.pc.Clearing?
    case StoreFailure => l.pc.Failing?
    case CloseDone => l.pc.Closing?
  }

  function LoopStep(l: Loop, a: LoopAction): Loop
    requires LoopEnabled(l, a)
  {
    match a
    case Receive(raw) => l.(received := l.received + [raw], latest := Latest(l.latest, raw))
    case Break => l.(pc := Clearing)
    case ClearCard => l.(latest := NO_CARD, pc := Failing)
    case StoreFailure => l.(failed := true, pc := Closing)
    case CloseDone => l.(done := true, pc := Over)
  }

  /** While reading, the card is the fold of all that was received; from clearing on it is no card. */
  predicate LoopOk(l: Loop) {
    && (l.pc.Reading? || l.pc.Clearing? ==> l.latest == Cached(NO_CARD, l.received) && !l.done)
    && (l.pc.Failing? || l.pc.Closing? || l.pc.Over? ==> l.latest == NO_CARD)
    && (l.failed <==> l.pc.Closing? || l.pc.Over?)
    && (l.done <==> l.pc.Over?)
  }

  lemma LoopOkStep(l: Loop, a: LoopAction)
    requires LoopOk(l) && LoopEnabled(l, a)
    ensures LoopOk(LoopStep(l, a))
  {
    if a.Receive? {
      assert (l.received + [a.raw])[..|l.received|] == l.received;
    }
  }

  datatype LoopRun = LoopRun(states: seq<Loop>, actions: seq<LoopAction>)

  ghost predicate LoopTaken(run: LoopRun, i: nat)
    requires i < |run.actions| && i + 1 < |run.states|
  {
    LoopEnabled(run.states[i], run.actions[i]) && run.states[i + 1] == LoopStep(run.states[i], run.actions[i])
  }

  ghost predicate IsLoopRun(run: LoopRun) {
    && |run.states| == |run.actions| + 1
    && run.states[0] == STARTED
    && forall i: nat :: i < |run.actions| ==> LoopTaken(run, i)
  }

  lemma {:induction false} LoopOkAlong(run: LoopRun, i: nat)
    requires IsLoopRun(run) && i < |run.states|
    ensures LoopOk(run.states[i])
  {
    if i > 0 {
      LoopOkAlong(run, i - 1);
      assert LoopTaken(run, i - 1);
      LoopOkStep(run.states[i - 1], run.actions[i - 1]);
    }
  }

  /**
   Over every run, as any goroutine sees it: while the session reads, the card is the fold of the reports
   received so far; once `done` is closed it is no card, the failure is recorded, and no step follows.
   */
  lemma CardOverRun(run: LoopRun, i: nat)
    requires IsLoopRun(run) && i < |run.states|
    ensures var l := run.states[i];
            && (l.pc.Reading? ==> l.latest == Cached(NO_CARD, l.received))
            && (l.failed ==> l.latest == NO_CARD && !l.pc.Reading?)
            && (l.done ==> l.latest == NO_CARD && l.failed && i == |run.actions|)
  {
    LoopOkAlong(run, i);
    assert i < |run.actions| ==> LoopTaken(run, i);
  }
}
