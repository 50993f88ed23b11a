/**
 The host's request-response caller: sequence allocation over a wrapping counter and a bounded table of
 pending calls, and the consumption of responses, each operation taken as one atomic step. What happens
 between their steps under concurrency is in `CallerRaces`.
 */
module Caller {
  import opened Wrappers
  import opened Bytes
  import Protocol

  const CALLER_CAPACITY: nat := 1024
  const MAX_ATTEMPTS: nat := 0xFFFF
  const COUNTER_MODULUS: nat := 0x1_0000_0000
  const SEQUENCE_MODULUS: nat := 0x1_0000

  datatype AllocateError = InvalidTimeout | SequenceExhausted

  /** The sequence the `draw`-th counter increment yields: the 32-bit counter cut to 16 bits. */
  function SequenceOf(draw: nat): uint16 {
    draw % COUNTER_MODULUS % SEQUENCE_MODULUS
  }

  /** The 32-bit wrap does not disturb the 16-bit sequence. */
  lemma SequenceIgnoresWrap(draw: nat)
    ensures SequenceOf(draw) == draw % SEQUENCE_MODULUS
  {
    var wraps, low := draw / COUNTER_MODULUS, draw % COUNTER_MODULUS;
    assert draw == (wraps * SEQUENCE_MODULUS + low / SEQUENCE_MODULUS) * SEQUENCE_MODULUS + low % SEQUENCE_MODULUS;
  }

  /** Two draws with the same sequence are a multiple of 65536 draws apart, across any wrap. */
  lemma SameSequenceApart(a: nat, b: nat)
    ensures SequenceOf(a) == SequenceOf(b) <==> (a - b) % SEQUENCE_MODULUS == 0
  {
    SequenceIgnoresWrap(a);
    SequenceIgnoresWrap(b);
    SameRemainder(a, b);
  }

  lemma SameRemainder(a: nat, b: nat)
    ensures a % 0x1_0000 == b % 0x1_0000 <==> (a - b) % 0x1_0000 == 0
  {
    var x, y, q := a / 0x1_0000, b / 0x1_0000, (a - b) / 0x1_0000;
    assert a == 0x1_0000 * x + a % 0x1_0000;
    assert b == 0x1_0000 * y + b % 0x1_0000;
    assert a - b == 0x1_0000 * q + (a - b) % 0x1_0000;
  }

  /** Two different draws with the same sequence are at least 65536 draws apart. */
  lemma SameSequenceFar(a: nat, b: nat)
    requires a != b && SequenceOf(a) == SequenceOf(b)
    ensures a + SEQUENCE_MODULUS <= b || b + SEQUENCE_MODULUS <= a
  {
    SameSequenceApart(a, b);
  }

  /** The sequences of the `n` draws after `start`. */
  ghost function Drawn(start: nat, n: nat): set<uint16> {
    if n == 0 then {} else Drawn(start, n - 1) + {SequenceOf(start + n)}
  }

  lemma {:induction false} LaterDrawIsNew(start: nat, n: nat, draw: nat)
    requires start + n < draw < start + 1 + SEQUENCE_MODULUS
    ensures SequenceOf(draw) !in Drawn(start, n)
  {
    if n > 0 {
      LaterDrawIsNew(start, n - 1, draw);
      SameSequenceApart(draw, start + n);
    }
  }

  /** Fewer than 65536 consecutive draws never repeat a sequence. */
  lemma {:induction false} DrawnDistinct(start: nat, n: nat)
    requires n <= SEQUENCE_MODULUS
    ensures |Drawn(start, n)| == n
  {
    if n > 0 {
      DrawnDistinct(start, n - 1);
      LaterDrawIsNew(start, n - 1, start + n);
    }
  }

  /** Every one of the `n` draws after `start` is zero or the sequence of a live call. */
  ghost predicate AllTaken(start: nat, n: nat, live: set<uint16>) {
    forall draw: nat | start < draw <= start + n :: SequenceOf(draw) == 0 || SequenceOf(draw) in live
  }

  lemma {:induction false} TakenDraws(start: nat, n: nat, live: set<uint16>)
    requires AllTaken(start, n, live)
    ensures Drawn(start, n) <= live + {0}
  {
    if n > 0 {
      TakenDraws(start, n - 1, live);
    }
  }

  /** So many failed draws need as many live calls, but for the one zero among them. */
  lemma FailedDrawsOccupied(start: nat, n: nat, live: set<uint16>)
    requires n <= SEQUENCE_MODULUS && AllTaken(start, n, live)
    ensures n <= |live| + 1
  {
    TakenDraws(start, n, live);
    DrawnDistinct(start, n);
    SubsetSize(Drawn(start, n), live + {0});
    assert |live + {0}| <= |live| + 1;
  }

  lemma {:induction false} SubsetSize<T>(a: set<T>, b: set<T>)
    requires a <= b
    ensures |a| <= |b|
    decreases |a|
  {
    if a != {} {
      var x :| x in a;
      SubsetSize(a - {x}, b - {x});
    }
  }

  class PendingCall {
    var response: seq<seq<uint8>>   // what the call's channel holds
    var consumed: bool

    constructor ()
      ensures response == [] && !consumed
    {
      response, consumed := [], false;
    }
  }

  class Caller {
    var next: uint32
    var calls: map<uint16, PendingCall>
    ghost var draws: nat

    ghost predicate Valid()
      reads this, calls.Values
    {
      && next == draws % COUNTER_MODULUS
      && 0 !in calls
      && (forall s, t | s in calls && t in calls && s != t :: calls[s] != calls[t])
      && (forall s | s in calls && !calls[s].consumed :: calls[s].response == [])
    }

    constructor ()
      ensures Valid() && calls == map[] && draws == 0
    {
      next, calls, draws := 0, map[], 0;
    }

    /** `next.Add(1)`, cut to a sequence. */
    method Draw() returns (sequence: uint16)
      requires next == draws % COUNTER_MODULUS
      modifies this`next, this`draws
      ensures draws == old(draws) + 1 && next == draws % COUNTER_MODULUS && sequence == SequenceOf(draws)
    {
      next := if next == 0xFFFF_FFFF then 0 else next + 1;
      draws := draws + 1;
      sequence := next % SEQUENCE_MODULUS;
    }

    /** `AddWithLifetime`: a full table drops one entry of its choice for the new one. */
    method Add(sequence: uint16, call: PendingCall)
      requires Valid() && sequence != 0 && sequence !in calls
      requires !call.consumed && call.response == [] && call !in calls.Values
      modifies this`calls
      ensures Valid() && sequence in calls && calls[sequence] == call
      ensures calls.Keys <= old(calls).Keys + {sequence}
      ensures forall s | s in calls && s != sequence :: calls[s] == old(calls)[s]
      ensures |old(calls).Keys| < CALLER_CAPACITY ==> calls == old(calls)[sequence := call]
      ensures |old(calls).Keys| <= CALLER_CAPACITY ==> |calls.Keys| <= CALLER_CAPACITY
    {
      if |calls.Keys| >= CALLER_CAPACITY {
        var victim :| victim in calls;
        calls := calls - {victim};
        assert calls.Keys == old(calls).Keys - {victim};
      }
      calls := calls[sequence := call];
      assert calls.Keys <= old(calls).Keys + {sequence};
    }

    /** An unused call entered under a free sequence, at most one old entry making room for it. */
    ghost predicate Entered(before: map<uint16, PendingCall>, sequence: uint16, call: PendingCall)
      reads this, call
    {
      && sequence != 0 && sequence !in before
      && !call.consumed && call.response == []
      && sequence in calls && calls[sequence] == call
      && calls.Keys <= before.Keys + {sequence}
      && (forall s | s in calls && s != sequence :: calls[s] == before[s])
      && (|before.Keys| < CALLER_CAPACITY ==> calls == before[sequence := call])
    }

    /** One pass of the allocation loop. */
    method Attempt() returns (r: Option<(uint16, PendingCall)>)
      requires Valid()
      modifies this
      ensures Valid() && draws == old(draws) + 1
      ensures r.Some? <==> SequenceOf(draws) != 0 && SequenceOf(draws) !in old(calls)
      ensures r.Some? ==>
                fresh(r.value.1) && r.value.0 == SequenceOf(draws) && Entered(old(calls), r.value.0, r.value.1)
      ensures r.None? ==> calls == old(calls)
      ensures |old(calls).Keys| <= CALLER_CAPACITY ==> |calls.Keys| <= CALLER_CAPACITY
    {
      var sequence := Draw();
      if sequence == 0 || sequence in calls {
        return None;
      }
      var call := new PendingCall();
      Add(sequence, call);
      r := Some((sequence, call));
    }

    /**
     Allocates a sequence. On success it is the first draw that is neither zero nor taken by a live
     call; with at most 1024 live calls that is one of the next 1026 draws, so exhaustion, which takes
     65534 live calls, cannot happen.
     */
    method Allocate(timeout: int) returns (r: Result<(uint16, PendingCall), AllocateError>)
      requires Valid()
      modifies this
      ensures Valid()
      ensures timeout <= 0 <==> r == Err(InvalidTimeout)
      ensures timeout <= 0 ==> calls == old(calls) && draws == old(draws)
      ensures r.Ok? ==>
                && fresh(r.value.1) && Entered(old(calls), r.value.0, r.value.1)
                && draws > old(draws) && r.value.0 == SequenceOf(draws)
                && AllTaken(old(draws), draws - old(draws) - 1, old(calls).Keys)
      ensures r == Err(SequenceExhausted) ==> calls == old(calls) && |old(calls).Keys| >= 65534
      ensures timeout > 0 && |old(calls).Keys| <= CALLER_CAPACITY ==>
                r.Ok? && draws - old(draws) <= 1026 && |calls.Keys| <= CALLER_CAPACITY
    {
      if timeout <= 0 {
        return Err(InvalidTimeout);
      }
      ghost var start := draws;
      ghost var live := calls.Keys;
      var attempts := 0;
      while attempts < MAX_ATTEMPTS
        invariant attempts <= MAX_ATTEMPTS
        invariant Valid() && calls == old(calls)
        invariant draws == start + attempts
        invariant AllTaken(start, attempts, live)
      {
        FailedDrawsOccupied(start, attempts, live);
        var call := Attempt();
        if call.Some? {
          return Ok(call.value);
        }
        attempts := attempts + 1;
      }
      FailedDrawsOccupied(start, attempts, live);
      r := Err(SequenceExhausted);
    }

    /** Hands a response to the live call of its sequence, which leaves the table; anything else is refused. */
    method Consume(sequence: uint16, raw: seq<uint8>) returns (r: Result<(), Protocol.Error>)
      requires Valid()
      modifies this`calls, calls.Values
      ensures Valid() && draws == old(draws)
      ensures r.Ok? <==> sequence in old(calls) && !old(calls[sequence].consumed)
      ensures r.Err? ==> r.error == Protocol.UnknownSequence && calls == old(calls)
      ensures r.Ok? ==>
                && calls == old(calls) - {sequence}
                && old(calls)[sequence].consumed && old(calls)[sequence].response == [raw]
      ensures forall s | s in old(calls) && (r.Err? || s != sequence) :: unchanged(old(calls)[s])
    {
      if sequence !in calls || calls[sequence].consumed {
        return Err(Protocol.UnknownSequence);
      }
      var call := calls[sequence];
      call.consumed := true;
      calls := calls - {sequence};
      call.response := call.response + [raw];
      r := Ok(());
    }
  }
}
