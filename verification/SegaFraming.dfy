/**
 SEGA CDC framing: `SYNC`, then a stuffed body and its 8-bit sum. This module gives the parser
 as one transition per byte, the encoder as a function on byte strings, and the laws that tie
 them together over unbounded, noisy, arbitrarily cut streams.
 */
module SegaFraming {
  import opened Wrappers
  import opened Bytes

  const SYNC: uint8 := 0xE0
  const ESCAPE: uint8 := 0xD0
  const CAPACITY: nat := 257

  /** The 8-bit increment, `0xFF` wrapping to `0x00`. */
  function Next(b: uint8): uint8 {
    if b == 0xFF then 0 else b + 1
  }

  // ---------------------------------------------------------------- encoder

  function StuffByte(b: uint8): seq<uint8> {
    if b == ESCAPE || b == SYNC then [ESCAPE, b - 1] else [b]
  }

  function Stuff(s: seq<uint8>): seq<uint8> {
    if s == [] then [] else StuffByte(s[0]) + Stuff(s[1..])
  }

  function Frame(body: seq<uint8>): seq<uint8> {
    [SYNC] + Stuff(body + [Checksum(body)])
  }

  /** A body the length-prefixed format can carry: 1 to 255 bytes, the first one its length. */
  predicate IsBody(body: seq<uint8>) {
    1 <= |body| <= 0xFF && body[0] == |body|
  }

  // ----------------------------------------------------------------- parser

  datatype State = State(synchronized: bool, escaped: bool, bytes: seq<uint8>)

  const RESET := State(false, false, [])

  /** What some input does to the parser: the state it leaves and the frames it delivers. */
  datatype Outcome = Outcome(state: State, frames: seq<seq<uint8>>)

  /** Stores one unescaped byte, completing the frame when the announced length is reached. */
  function Store(p: State, b: uint8): (o: Outcome)
    ensures |o.frames| <= 1
  {
    if |p.bytes| >= CAPACITY then
      Outcome(RESET, [])
    else
      var bytes := p.bytes + [b];
      var body := bytes[..|bytes| - 1];
      if |bytes| == bytes[0] as int + 1 then
        Outcome(RESET, if Checksum(body) == bytes[|bytes| - 1] then [body] else [])
      else if |bytes| > bytes[0] as int + 1 then
        Outcome(RESET, [])
      else
        Outcome(p.(bytes := bytes), [])
  }

  function Step(p: State, b: uint8): (o: Outcome)
    ensures |o.frames| <= 1
  {
    if !p.synchronized then
      Outcome(if b == SYNC then p.(synchronized := true, bytes := []) else p, [])
    else if !p.escaped && b == SYNC then
      Outcome(p.(bytes := []), [])
    else if !p.escaped && b == ESCAPE then
      Outcome(p.(escaped := true), [])
    else if p.escaped then
      Store(p.(escaped := false), Next(b))
    else
      Store(p, b)
  }

  function Run(p: State, input: seq<uint8>): Outcome
    decreases |input|
  {
    if input == [] then
      Outcome(p, [])
    else
      var first := Step(p, input[0]);
      var rest := Run(first.state, input[1..]);
      Outcome(rest.state, first.frames + rest.frames)
  }

  /** The states a parser can be in: idle and empty, or inside a frame still short of its length. */
  predicate WellFormed(p: State) {
    && (!p.synchronized ==> p == RESET)
    && (p.bytes != [] ==> |p.bytes| <= p.bytes[0])
  }

  // ------------------------------------------------------------ composition

  lemma {:induction false} RunConcat(p: State, a: seq<uint8>, b: seq<uint8>)
    ensures var first := Run(p, a);
            var rest := Run(first.state, b);
            Run(p, a + b) == Outcome(rest.state, first.frames + rest.frames)
    decreases |a|
  {
    hide Step;
    if a == [] {
      assert a + b == b;
    } else {
      var first := Step(p, a[0]);
      var middle := Run(first.state, a[1..]);
      assert (a + b)[1..] == a[1..] + b;
      RunConcat(first.state, a[1..], b);
      ConcatAssociative(first.frames, middle.frames, Run(middle.state, b).frames);
    }
  }

  lemma RunSnoc(p: State, a: seq<uint8>, b: uint8)
    ensures var first := Run(p, a);
            var last := Step(first.state, b);
            Run(p, a + [b]) == Outcome(last.state, first.frames + last.frames)
  {
    hide Step;
    RunConcat(p, a, [b]);
    var q := Run(p, a).state;
    assert Run(q, [b]) == Outcome(Step(q, b).state, Step(q, b).frames + []);
  }

  lemma RunCons(p: State, b: uint8, rest: seq<uint8>)
    ensures var first := Step(p, b);
            Run(p, [b] + rest) == Outcome(Run(first.state, rest).state, first.frames + Run(first.state, rest).frames)
  {
    hide Step;
    assert ([b] + rest)[1..] == rest;
  }

  lemma RunNothing(p: State)
    ensures Run(p, []) == Outcome(p, [])
  {
  }

  function Flatten(chunks: seq<seq<uint8>>): seq<uint8> {
    if chunks == [] then [] else chunks[0] + Flatten(chunks[1..])
  }

  /** Feeding the parser one received chunk after another. */
  function RunChunks(p: State, chunks: seq<seq<uint8>>): Outcome
    decreases |chunks|
  {
    if chunks == [] then
      Outcome(p, [])
    else
      var first := Run(p, chunks[0]);
      var rest := RunChunks(first.state, chunks[1..]);
      Outcome(rest.state, first.frames + rest.frames)
  }

  /** How the byte stream is cut into receive calls does not matter. */
  lemma {:induction false} ChunkingIrrelevant(p: State, chunks: seq<seq<uint8>>)
    ensures RunChunks(p, chunks) == Run(p, Flatten(chunks))
    decreases |chunks|
  {
    hide Run;
    if chunks == [] {
      RunNothing(p);
    } else {
      ChunkingIrrelevant(Run(p, chunks[0]).state, chunks[1..]);
      RunConcat(p, chunks[0], Flatten(chunks[1..]));
    }
  }

  // ----------------------------------------------------- reachable states

  lemma StepWellFormed(p: State, b: uint8)
    requires WellFormed(p)
    ensures WellFormed(Step(p, b).state)
  {
  }

  lemma {:induction false} RunWellFormed(p: State, input: seq<uint8>)
    requires WellFormed(p)
    ensures WellFormed(Run(p, input).state)
    decreases |input|
  {
    hide Step;
    if input != [] {
      StepWellFormed(p, input[0]);
      RunWellFormed(Step(p, input[0]).state, input[1..]);
    }
  }

  /**
   After any input whatsoever the parser has room for one more byte, storing it never passes the
   announced length, and so neither of the two bail-out branches of the receive loop can run.
   */
  lemma BailOutsUnreachable(input: seq<uint8>, b: uint8)
    ensures var p := Run(RESET, input).state;
            var bytes := p.bytes + [b];
            |p.bytes| < CAPACITY && |bytes| <= bytes[0] as int + 1
  {
    RunWellFormed(RESET, input);
  }

  /** Every frame handed to dispatch has its own length as first stored byte. */
  lemma {:induction false} DeliveredLengths(p: State, input: seq<uint8>)
    requires WellFormed(p)
    ensures forall body | body in Run(p, input).frames ::
              |body| <= 0xFF && (body + [Checksum(body)])[0] == |body|
    decreases |input|
  {
    if input != [] {
      var first := Step(p, input[0]);
      forall body | body in first.frames
        ensures |body| <= 0xFF && (body + [Checksum(body)])[0] == |body|
      {
        var b: uint8 := if p.escaped then Next(input[0]) else input[0];
        assert (p.bytes + [b])[..|p.bytes|] == p.bytes;
      }
      DeliveredLengths(first.state, input[1..]);
    }
  }

  // ----------------------------------------------------------- unescaping

  /** Plain bytes read so far and whether an escape is pending; `None` after a raw `SYNC` outside an escape. */
  type Plain = Option<(seq<uint8>, bool)>

  function UnstuffStep(before: Plain, b: uint8): Plain {
    match before
    case None => None
    case Some((plain, pending)) =>
      if pending then Some((plain + [Next(b)], false))
      else if b == SYNC then None
      else if b == ESCAPE then Some((plain, true))
      else Some((plain + [b], false))
  }

  /** The escape layer alone, read off a byte string. */
  function Unstuff(s: seq<uint8>): Plain {
    if s == [] then Some(([], false)) else UnstuffStep(Unstuff(s[..|s| - 1]), s[|s| - 1])
  }

  lemma UnstuffSnoc(s: seq<uint8>, b: uint8)
    ensures Unstuff(s + [b]) == UnstuffStep(Unstuff(s), b)
  {
    assert (s + [b])[..|s|] == s;
  }

  /** Behind a string that leaves no escape pending, unescaping starts afresh. */
  lemma {:induction false} UnstuffConcat(a: seq<uint8>, b: seq<uint8>)
    requires Unstuff(a).Some? && !Unstuff(a).value.1
    ensures Unstuff(a + b) == match Unstuff(b)
                              case None => None
                              case Some((plain, pending)) => Some((Unstuff(a).value.0 + plain, pending))
    decreases |b|
  {
    hide Unstuff;
    if b == [] {
      assert a + b == a;
      assert Unstuff(a).value.0 + [] == Unstuff(a).value.0;
      UnstuffNothing();
    } else {
      var n := |b| - 1;
      UnstuffConcat(a, b[..n]);
      UnstuffSnoc(a + b[..n], b[n]);
      UnstuffSnoc(b[..n], b[n]);
      assert b[..n] + [b[n]] == b;
      assert a + b[..n] + [b[n]] == a + b;
      if Unstuff(b).Some? {
        var x, y := Unstuff(a).value.0, Unstuff(b[..n]).value.0;
        assert forall z :: x + (y + [z]) == x + y + [z];
      }
    }
  }

  lemma UnstuffNothing()
    ensures Unstuff([]) == Some(([], false))
  {
  }

  lemma {:induction false} StuffConcat(a: seq<uint8>, b: seq<uint8>)
    ensures Stuff(a + b) == Stuff(a) + Stuff(b)
  {
    if a == [] {
      assert a + b == b;
    } else {
      assert (a + b)[1..] == a[1..] + b;
      StuffConcat(a[1..], b);
    }
  }

  lemma StuffSnoc(a: seq<uint8>, b: uint8)
    ensures Stuff(a + [b]) == Stuff(a) + StuffByte(b)
  {
    StuffConcat(a, [b]);
    assert Stuff([b]) == StuffByte(b) + Stuff([]);
  }

  lemma UnstuffStuffByte(b: uint8)
    ensures Unstuff(StuffByte(b)) == Some(([b], false))
  {
    UnstuffSnoc([], b);
    assert [] + [b] == [b];
    if b == ESCAPE || b == SYNC {
      UnstuffSnoc([], ESCAPE);
      assert [] + [ESCAPE] == [ESCAPE];
      UnstuffSnoc([ESCAPE], b - 1);
      assert [ESCAPE] + [b - 1] == StuffByte(b);
    }
  }

  lemma {:induction false} UnstuffStuff(s: seq<uint8>)
    ensures Unstuff(Stuff(s)) == Some((s, false))
  {
    hide Unstuff, StuffByte;
    if s == [] {
      UnstuffNothing();
    } else {
      var n := |s| - 1;
      assert s[..n] + [s[n]] == s;
      UnstuffStuff(s[..n]);
      StuffSnoc(s[..n], s[n]);
      UnstuffStuffByte(s[n]);
      UnstuffConcat(Stuff(s[..n]), StuffByte(s[n]));
    }
  }

  lemma {:induction false} StuffedHasNoSync(s: seq<uint8>)
    ensures SYNC !in Stuff(s)
  {
    if s != [] {
      StuffedHasNoSync(s[1..]);
    }
  }

  lemma {:induction false} StuffedLength(s: seq<uint8>)
    ensures |s| <= |Stuff(s)| <= 2 * |s|
  {
    if s != [] {
      StuffedLength(s[1..]);
    }
  }

  // ----------------------------------------------------------- provenance

  /** A stretch of input: a `SYNC` at `start` and the frame's last byte just before `end`. */
  datatype Piece = Piece(start: nat, end: nat)

  predicate Carries(input: seq<uint8>, piece: Piece, body: seq<uint8>) {
    var decoded := body + [Checksum(body)];
    && piece.start < piece.end <= |input|
    && input[piece.start] == SYNC
    && Unstuff(input[piece.start + 1..piece.end]) == Some((decoded, false))
    && decoded[0] == |body|
  }

  /** The pieces carry these bodies one for one, lie one behind the other, and end by `limit`. */
  predicate CarryAll(input: seq<uint8>, pieces: seq<Piece>, bodies: seq<seq<uint8>>, limit: nat) {
    && |pieces| == |bodies|
    && (forall k :: 0 <= k < |pieces| ==> Carries(input, pieces[k], bodies[k]) && pieces[k].end <= limit)
    && (forall k :: 0 < k < |pieces| ==> pieces[k - 1].end <= pieces[k].start)
  }

  /** The buffer is what unescaping the input since the accepted `SYNC` at `open` gives. */
  predicate Buffered(input: seq<uint8>, open: nat, p: State) {
    if p.synchronized then
      && open < |input|
      && input[open] == SYNC
      && Unstuff(input[open + 1..]) == Some((p.bytes, p.escaped))
    else
      open == |input| && p == RESET
  }

  lemma CarryAllExtends(input: seq<uint8>, b: uint8, pieces: seq<Piece>, bodies: seq<seq<uint8>>, limit: nat)
    requires CarryAll(input, pieces, bodies, limit)
    ensures CarryAll(input + [b], pieces, bodies, limit)
  {
    forall k | 0 <= k < |pieces|
      ensures Carries(input + [b], pieces[k], bodies[k])
    {
      var piece := pieces[k];
      assert Carries(input, piece, bodies[k]);
      assert (input + [b])[piece.start + 1..piece.end] == input[piece.start + 1..piece.end];
    }
  }

  /** Unescaping the bytes behind `open`, one byte later. */
  lemma UnstuffExtends(input: seq<uint8>, open: nat, b: uint8)
    requires open < |input|
    ensures var rest := (input + [b])[open + 1..];
            rest == input[open + 1..] + [b]
  {
  }

  /** Inside a frame the buffer is what unescaping gives, and a frame that completes is all of it. */
  lemma StepInFrame(p: State, b: uint8)
    requires WellFormed(p) && p.synchronized && (p.escaped || b != SYNC)
    ensures var o, next := Step(p, b), UnstuffStep(Some((p.bytes, p.escaped)), b);
            && next.Some?
            && if o.state.synchronized then o.frames == [] && next.value == (o.state.bytes, o.state.escaped)
               else
                 && o.state == RESET && |o.frames| <= 1
                 && (o.frames != [] ==>
                       var decoded := o.frames[0] + [Checksum(o.frames[0])];
                       next.value == (decoded, false) && decoded[0] == |o.frames[0]|)
  {
    hide Checksum;
    var stored := p.bytes + [if p.escaped then Next(b) else b];
    assert stored[..|p.bytes|] == p.bytes;
  }

  /** One more byte keeps the buffer explained, and a frame it completes is a piece of the input. */
  lemma StepProvenance(input: seq<uint8>, b: uint8, open: nat, p: State) returns (open': nat)
    requires WellFormed(p) && Buffered(input, open, p)
    ensures var o := Step(p, b);
            && Buffered(input + [b], open', o.state)
            && (o.frames == [] ==> open <= open')
            && (o.frames != [] ==>
                  && |o.frames| == 1
                  && open' == |input| + 1
                  && Carries(input + [b], Piece(open, open'), o.frames[0]))
  {
    hide Unstuff, Checksum;
    var n := |input|;
    var longer := input + [b];
    if !p.synchronized || (!p.escaped && b == SYNC) {
      open' := if b == SYNC then n else n + 1;
      assert longer[n + 1..] == [];
      UnstuffNothing();
    } else {
      StepInFrame(p, b);
      hide Step, UnstuffStep;
      UnstuffExtends(input, open, b);
      UnstuffSnoc(input[open + 1..], b);
      open' := if Step(p, b).state.synchronized then open else n + 1;
      assert longer[open + 1..n + 1] == longer[open + 1..];
    }
  }

  /**
   Where the frames come from, for every input at all: the delivered bodies match disjoint pieces
   of the input, in order, each a `SYNC` followed by a stuffed body and its checksum; and what is
   buffered afterwards is the unescaped input since the last accepted `SYNC`.
   */
  lemma {:induction false} Provenance(input: seq<uint8>) returns (pieces: seq<Piece>, open: nat)
    ensures var o := Run(RESET, input);
            CarryAll(input, pieces, o.frames, open) && Buffered(input, open, o.state)
    decreases |input|
  {
    hide Step, Unstuff, Run, Carries;
    if input == [] {
      RunNothing(RESET);
      pieces, open := [], 0;
    } else {
      var n := |input| - 1;
      var earlier, b := input[..n], input[n];
      assert earlier + [b] == input;
      var before := Run(RESET, earlier);
      pieces, open := Provenance(earlier);
      RunSnoc(RESET, earlier, b);
      RunWellFormed(RESET, earlier);
      CarryAllExtends(earlier, b, pieces, before.frames, open);
      var open' := StepProvenance(earlier, b, open, before.state);
      if Step(before.state, b).frames != [] {
        pieces := pieces + [Piece(open, open')];
      }
      open := open';
    }
  }

  // ----------------------------------------------------------- round trip

  /** An idle parser ignores everything but `SYNC`. */
  lemma {:induction false} NoiseIgnored(noise: seq<uint8>)
    requires SYNC !in noise
    ensures Run(RESET, noise) == Outcome(RESET, [])
  {
    if noise != [] {
      NoiseIgnored(noise[1..]);
    }
  }

  /** A `SYNC` was accepted and nothing stored since. */
  const OPENED := State(true, false, [])

  /** Bytes behind an accepted `SYNC` that fall short of the length they announce are only buffered. */
  lemma {:induction false} ShortIsBuffered(raw: seq<uint8>)
    requires Unstuff(raw).Some?
    requires var plain := Unstuff(raw).value.0; plain == [] || |plain| <= plain[0]
    ensures Run(OPENED, raw) == Outcome(State(true, Unstuff(raw).value.1, Unstuff(raw).value.0), [])
    decreases |raw|
  {
    hide Run, Unstuff, Checksum;
    if raw == [] {
      RunNothing(OPENED);
      UnstuffNothing();
    } else {
      var n := |raw| - 1;
      assert raw[..n] + [raw[n]] == raw;
      UnstuffSnoc(raw[..n], raw[n]);
      ShorterStillShort(raw[..n], raw[n]);
      ShortIsBuffered(raw[..n]);
      RunSnoc(OPENED, raw[..n], raw[n]);
    }
  }

  lemma ShorterStillShort(raw: seq<uint8>, b: uint8)
    requires Unstuff(raw + [b]).Some?
    requires var plain := Unstuff(raw + [b]).value.0; plain == [] || |plain| <= plain[0]
    ensures Unstuff(raw).Some?
    ensures var plain := Unstuff(raw).value.0; plain == [] || |plain| <= plain[0]
  {
    hide Unstuff;
    UnstuffSnoc(raw, b);
  }

  /**
   The verdict on one segment, however it is escaped: once `SYNC` is accepted, raw bytes that unescape to as
   many bytes as they announce end the frame, and it is delivered if and only if its last byte is the sum.
   */
  lemma SegmentDecides(raw: seq<uint8>, decoded: seq<uint8>)
    requires Unstuff(raw) == Some((decoded, false))
    requires decoded != [] && |decoded| == decoded[0] as int + 1
    ensures var body := decoded[..|decoded| - 1];
            Run(OPENED, raw) == Outcome(RESET, if Checksum(body) == decoded[|decoded| - 1] then [body] else [])
  {
    hide Run, Unstuff, Checksum;
    UnstuffNothing();
    var n := |raw| - 1;
    assert raw[..n] + [raw[n]] == raw;
    UnstuffSnoc(raw[..n], raw[n]);
    var before := Unstuff(raw[..n]).value.0;
    assert before == decoded[..|decoded| - 1];
    ShortIsBuffered(raw[..n]);
    RunSnoc(OPENED, raw[..n], raw[n]);
    assert before + [decoded[|decoded| - 1]] == decoded;
  }

  /** From any reachable state without a pending escape, an encoded frame is delivered intact. */
  lemma FrameDelivered(p: State, body: seq<uint8>)
    requires WellFormed(p) && !p.escaped && IsBody(body)
    ensures Run(p, Frame(body)) == Outcome(RESET, [body])
  {
    hide Unstuff, Run, Stuff, Checksum;
    var decoded := body + [Checksum(body)];
    UnstuffStuff(decoded);
    SegmentDecides(Stuff(decoded), decoded);
    RunCons(p, SYNC, Stuff(decoded));
    assert decoded[..|body|] == body;
  }

  /** One stretch of noise and the frame behind it. */
  datatype Item = Item(noise: seq<uint8>, body: seq<uint8>)

  predicate Transmittable(items: seq<Item>) {
    forall k :: 0 <= k < |items| ==> SYNC !in items[k].noise && IsBody(items[k].body)
  }

  function Stream(items: seq<Item>): seq<uint8> {
    if items == [] then [] else items[0].noise + Frame(items[0].body) + Stream(items[1..])
  }

  function Bodies(items: seq<Item>): seq<seq<uint8>> {
    if items == [] then [] else [items[0].body] + Bodies(items[1..])
  }

  /** Parsing undoes encoding: exactly the encoded bodies, in order, through any `SYNC`-free noise. */
  lemma {:induction false} RoundTrip(items: seq<Item>, tail: seq<uint8>)
    requires Transmittable(items) && SYNC !in tail
    ensures Run(RESET, Stream(items) + tail) == Outcome(RESET, Bodies(items))
  {
    if items == [] {
      assert Stream(items) + tail == tail;
      NoiseIgnored(tail);
    } else {
      var noise, frame, rest := items[0].noise, Frame(items[0].body), Stream(items[1..]) + tail;
      assert Stream(items) + tail == noise + (frame + rest);
      NoiseIgnored(noise);
      FrameDelivered(RESET, items[0].body);
      RoundTrip(items[1..], tail);
      RunConcat(RESET, frame, rest);
      RunConcat(RESET, noise, frame + rest);
    }
  }

  // ---------------------------------------------------- self-stabilisation

  /** An escape is pending behind these bytes. */
  predicate LeavesEscape(s: seq<uint8>) {
    Unstuff(s).Some? && Unstuff(s).value.1
  }

  /** Bytes without `SYNC`, and with it nowhere but behind an escape, are transparent to the escape layer. */
  lemma {:induction false} NoSyncUnstuffs(s: seq<uint8>)
    requires SYNC !in s
    ensures Unstuff(s).Some?
  {
    if s != [] {
      NoSyncUnstuffs(s[..|s| - 1]);
    }
  }

  /**
   Bytes arriving at an arbitrary point, a `SYNC` among them only behind an escape: if the parser is
   synchronized after them, an escape is pending exactly when they leave one. Without any `SYNC` they complete
   at most one frame, and none if the parser is still inside one.
   */
  lemma {:induction false} GapRun(p: State, s: seq<uint8>)
    requires WellFormed(p) && !p.escaped && Unstuff(s).Some?
    ensures var o := Run(p, s);
            && WellFormed(o.state)
            && (o.state.synchronized ==> o.state.escaped == Unstuff(s).value.1)
            && (SYNC !in s ==>
                  && |o.frames| <= 1 && (o.state.synchronized ==> o.frames == [] && p.synchronized)
                  && (!p.synchronized ==> o.frames == []))
    decreases |s|
  {
    hide Unstuff, Run;
    if s == [] {
      RunNothing(p);
      UnstuffNothing();
    } else {
      var n := |s| - 1;
      assert s[..n] + [s[n]] == s;
      UnstuffSnoc(s[..n], s[n]);
      GapRun(p, s[..n]);
      RunSnoc(p, s[..n], s[n]);
      StepWellFormed(Run(p, s[..n]).state, s[n]);
    }
  }

  /**
   One whole frame, whatever the parser was doing, and noise behind it with a `SYNC` only behind an escape: an
   escape is then pending exactly if the parser is inside a frame and the noise leaves one. Without any `SYNC`
   in the noise at most one frame is completed.
   */
  lemma OneFrameSettles(p: State, body: seq<uint8>, gap: seq<uint8>)
    requires WellFormed(p) && Unstuff(gap).Some?
    ensures var o := Run(p, Frame(body) + gap);
            && WellFormed(o.state)
            && (o.state.escaped <==> o.state.synchronized && LeavesEscape(gap))
            && (SYNC !in gap ==> |o.frames| <= 1)
  {
    hide Unstuff, Stuff, Run, Step, Checksum;
    var decoded := body + [Checksum(body)];
    var rest := Stuff(decoded) + gap;
    assert Frame(body) + gap == [SYNC] + rest;
    SyncSettles(p);
    StuffedHasNoSync(decoded);
    UnstuffStuff(decoded);
    UnstuffConcat(Stuff(decoded), gap);
    GapRun(Step(p, SYNC).state, rest);
    RunCons(p, SYNC, rest);
  }

  /** A `SYNC` never leaves an escape pending, and may as data complete a frame. */
  lemma SyncSettles(p: State)
    requires WellFormed(p)
    ensures var o := Step(p, SYNC);
            WellFormed(o.state) && !o.state.escaped && (o.frames != [] ==> !o.state.synchronized)
  {
  }

  /**
   Self-stabilisation: from any reachable state, mid-frame or mid-escape, one frame `lost` may be swallowed;
   with noise behind it that leaves no escape pending, `next` and everything after it, however noisy, is
   delivered exactly. If the noise holds no `SYNC` at all, at most one stale frame comes before.
   */
  lemma Stabilises(p: State, lost: seq<uint8>, gap: seq<uint8>, next: seq<uint8>, items: seq<Item>, tail: seq<uint8>)
    requires WellFormed(p) && Unstuff(gap).Some? && !LeavesEscape(gap)
    requires IsBody(next) && Transmittable(items) && SYNC !in tail
    ensures var o := Run(p, (Frame(lost) + gap) + (Frame(next) + (Stream(items) + tail)));
            var stale := Run(p, Frame(lost) + gap).frames;
            && o == Outcome(RESET, stale + ([next] + Bodies(items)))
            && (SYNC !in gap ==> |stale| <= 1)
  {
    OneFrameSettles(p, lost, gap);
    var settled := Run(p, Frame(lost) + gap).state;
    FrameDelivered(settled, next);
    RoundTrip(items, tail);
    RunConcat(settled, Frame(next), Stream(items) + tail);
    RunConcat(p, Frame(lost) + gap, Frame(next) + (Stream(items) + tail));
  }

  /** The shortest frame. */
  lemma FrameOfOne()
    ensures IsBody([1]) && Checksum([1]) == 1 && Frame([1]) == [SYNC, 1, 1]
  {
    assert Checksum([1]) == 1;
    assert [1] + [1] == [1, 1];
    assert Stuff([1, 1]) == StuffByte(1) + Stuff([1]);
    assert Stuff([1]) == StuffByte(1) + Stuff([]);
  }

  lemma RunThree(p: State, a: uint8, b: uint8, c: uint8)
    ensures var one := Step(p, a);
            var two := Step(one.state, b);
            var three := Step(two.state, c);
            Run(p, [a, b, c]) == Outcome(three.state, one.frames + (two.frames + three.frames))
  {
    hide Run, Step;
    var one := Step(p, a);
    var two := Step(one.state, b);
    assert [a, b, c] == [a] + [b, c] && [b, c] == [b] + [c] && [c] == [c] + [];
    RunCons(p, a, [b, c]);
    RunCons(one.state, b, [c]);
    RunCons(two.state, c, []);
    RunNothing(Step(two.state, c).state);
  }

  /** With an escape pending and two more bytes to come, the frame of `[1]` is swallowed as three data bytes. */
  lemma FrameSwallowed(p: State)
    requires p.synchronized && p.escaped && (p.bytes == [] || p.bytes == [0xE1, 1, 1])
    ensures IsBody([1]) && Run(p, Frame([1])) == Outcome(State(true, false, p.bytes + [0xE1, 1, 1]), [])
  {
    hide Run, Frame, Checksum;
    FrameOfOne();
    RunThree(p, SYNC, 1, 1);
    assert p.bytes + [0xE1] + [1] + [1] == p.bytes + [0xE1, 1, 1];
  }

  lemma EscapePending()
    ensures Run(RESET, [SYNC, ESCAPE]) == Outcome(State(true, true, []), [])
    ensures LeavesEscape([ESCAPE])
  {
    RunSnoc(RESET, [], SYNC);
    assert [] + [SYNC] == [SYNC];
    RunSnoc(RESET, [SYNC], ESCAPE);
    assert [SYNC] + [ESCAPE] == [SYNC, ESCAPE];
    UnstuffSnoc([], ESCAPE);
    assert [] + [ESCAPE] == [ESCAPE];
  }

  /** After `SYNC`, `ESCAPE` the next `SYNC` counts as data, so the first frame really can be lost. */
  lemma PendingEscapeSwallowsFrame()
    ensures IsBody([1]) && Run(RESET, [SYNC, ESCAPE] + Frame([1])) == Outcome(State(true, false, [0xE1, 1, 1]), [])
  {
    EscapePending();
    FrameSwallowed(State(true, true, []));
    RunConcat(RESET, [SYNC, ESCAPE], Frame([1]));
  }

  /** Noise that leaves an escape pending behind the lost frame loses the next one as well. */
  lemma TrailingEscapeLosesNext()
    ensures Unstuff([ESCAPE]).Some? && LeavesEscape([ESCAPE]) && IsBody([1])
    ensures Run(RESET, [SYNC, ESCAPE] + Frame([1]) + [ESCAPE] + Frame([1])).frames == []
  {
    EscapePending();
    PendingEscapeSwallowsFrame();
    var swallowed := [SYNC, ESCAPE] + Frame([1]);
    RunSnoc(RESET, swallowed, ESCAPE);
    FrameSwallowed(State(true, true, [0xE1, 1, 1]));
    RunConcat(RESET, swallowed + [ESCAPE], Frame([1]));
  }

  // ------------------------------------------------ when frames are delivered

  /** Every frame that comes now is delivered, and it alone. */
  ghost predicate DeliversAll(p: State) {
    forall body :: IsBody(body) ==> Run(p, Frame(body)) == Outcome(RESET, [body])
  }

  /** What a byte completes is the whole buffer, and it was stored as the sum. */
  lemma StepDelivers(p: State, b: uint8, body: seq<uint8>)
    requires body in Step(p, b).frames
    ensures p.synchronized && body == p.bytes && Checksum(body) == if p.escaped then Next(b) else b
    ensures Step(p, b).state == RESET
  {
    var last := if p.escaped then Next(b) else b;
    assert (p.bytes + [last])[..|p.bytes|] == p.bytes;
  }

  /** Each further byte joins the buffer, so long as the parser stays synchronized. */
  lemma StepStores(p: State, b: uint8)
    requires WellFormed(p) && b != ESCAPE && (p.escaped || b != SYNC)
    ensures var p' := Step(p, b).state;
            p'.synchronized ==>
              p.synchronized && !p'.escaped && p'.bytes == p.bytes + [if p.escaped then Next(b) else b]
  {
  }

  /** With an escape pending the frame of `[1]` is lost: its `SYNC` is stored as data in front of its body. */
  lemma PendingEscapeLosesOne(p: State)
    requires WellFormed(p) && p.escaped
    ensures [1] !in Run(p, Frame([1])).frames
  {
    hide Step, Run, Checksum, Frame;
    FrameOfOne();
    RunThree(p, SYNC, 1, 1);
    StepWellFormed(p, SYNC);
    StepStores(p, SYNC);
    var one := Step(p, SYNC).state;
    StepWellFormed(one, 1);
    StepStores(one, 1);
    var two := Step(one, 1).state;
    if [1] in Step(p, SYNC).frames {
      StepDelivers(p, SYNC, [1]);
    } else if [1] in Step(one, 1).frames {
      StepDelivers(one, 1, [1]);
    } else if [1] in Step(two, 1).frames {
      StepDelivers(two, 1, [1]);
    }
  }

  /**
   When a reachable state delivers its frames: every frame that can come is delivered, and nothing else, if
   and only if no escape is pending.
   */
  lemma DeliversExactly(p: State)
    requires WellFormed(p)
    ensures DeliversAll(p) <==> !p.escaped
  {
    hide Run, Frame;
    if p.escaped {
      FrameOfOne();
      PendingEscapeLosesOne(p);
      assert [1] in Outcome(RESET, [[1]]).frames;
    } else {
      forall body | IsBody(body)
        ensures Run(p, Frame(body)) == Outcome(RESET, [body])
      {
        FrameDelivered(p, body);
      }
    }
  }

  /**
   When the frame behind a lost one is safe: after any frame from any reachable state, and any noise the
   escape layer accepts, every next frame is delivered if and only if the parser is not inside a frame with an
   escape left pending by the noise.
   */
  lemma NextDeliveredExactly(p: State, lost: seq<uint8>, gap: seq<uint8>)
    requires WellFormed(p) && Unstuff(gap).Some?
    ensures var q := Run(p, Frame(lost) + gap).state;
            DeliversAll(q) <==> !(q.synchronized && LeavesEscape(gap))
  {
    hide DeliversAll, Run, Frame, Unstuff;
    OneFrameSettles(p, lost, gap);
    DeliversExactly(Run(p, Frame(lost) + gap).state);
  }

  // ------------------------------------------------------- error detection

  /**
   A decoded frame (body and sum) with exactly one byte changed, the length byte excepted, is always rejected
   and leaves the parser idle, whatever raw bytes it is escaped to.
   */
  lemma CorruptionRejected(body: seq<uint8>, i: nat, b: uint8, raw: seq<uint8>)
    requires IsBody(body) && 1 <= i <= |body|
    requires b != (body + [Checksum(body)])[i]
    requires Unstuff(raw) == Some(((body + [Checksum(body)])[i := b], false))
    ensures Run(RESET, [SYNC] + raw) == Outcome(RESET, [])
  {
    hide Run, Unstuff, Checksum;
    var decoded := (body + [Checksum(body)])[i := b];
    RunCons(RESET, SYNC, raw);
    SegmentDecides(raw, decoded);
    if i < |body| {
      assert decoded[..|body|] == body[i := b];
      ChecksumSeesChange(body, i, b);
    } else {
      assert decoded[..|body|] == body;
    }
  }
}
