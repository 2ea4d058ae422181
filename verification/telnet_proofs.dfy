/** Properties of the inbound automaton: the transition table it follows,
    the invariant that keeps its internal assertions from firing, what it
    delivers for escaped data, negotiation and sub-negotiation, and the
    behaviour of the option table. */
module TelnetProofs {
  import opened Bytes
  import opened Outcomes
  import opened TelnetUtil
  import opened Buffers
  import opened Telnet

  /** The control-flow skeleton of the byte loop: the state that follows
      `st` on byte `val`, or the assertion that rejects the byte whatever
      the buffer and the option table hold. */
  function Successor(st: State, val: byte): Result<State, Fault>
  {
    match st
    case Read => Ok(if val == IAC then Iac else Read)
    case Will | Wont | Do | Dont => Ok(Read)
    case Iac =>
      if val == IAC then Ok(Read)
      else if IsCommand(val) then Ok(CommandState(val))
      else Fail(InvalidCommand(val))
    case Sb => Ok(if val == IAC then SbIac else Sb)
    case SbIac =>
      if val == IAC then Ok(Sb)
      else if val == SE then Ok(SbIac)
      else Fail(ExpectedSe(val))
  }

  /** `Step` moves along `Successor`; it fails wherever `Successor` does,
      and otherwise only on the buffer assertion, a renegotiation or a
      short buffer for `pop(2)`. */
  lemma StepFollowsSuccessor(s: Scan, chunk: seq<byte>, i: nat)
    requires s.start <= i < |chunk|
    ensures Successor(s.engine.state, chunk[i]).Fail? ==>
              Step(s, chunk, i) == Fail(Successor(s.engine.state, chunk[i]).error)
    ensures Step(s, chunk, i).Ok? ==>
              Successor(s.engine.state, chunk[i]) == Ok(Step(s, chunk, i).value.engine.state)
    ensures Step(s, chunk, i).Fail? && Successor(s.engine.state, chunk[i]).Ok? ==>
              Step(s, chunk, i).error.BufferNotEmpty? || Step(s, chunk, i).error.Renegotiation?
              || Step(s, chunk, i).error.TrimUnderflow?
  {
    match s.engine.state
    case Read =>
    case Will | Do =>
    case Wont | Dont =>
    case Iac =>
      if chunk[i] != IAC && IsCommand(chunk[i]) {
        var pushed := Push(s.engine.buffer, chunk[s.start..i + 1]);
        if Length(pushed) >= 2 {
          var flushed := EmitData(Engine(CommandState(chunk[i]), PopTail(pushed, 2), s.engine.options));
          assert flushed.0.state == CommandState(chunk[i]);
        }
      }
    case Sb =>
    case SbIac =>
  }

  /** In `Read` a data byte changes nothing and IAC only moves to `Iac`:
      the bytes stay in the span. */
  lemma StepInRead(s: Scan, chunk: seq<byte>, i: nat)
    requires s.start <= i < |chunk| && s.engine.state == Read
    ensures Step(s, chunk, i) == Ok(if chunk[i] == IAC then s.(engine := s.engine.(state := Iac)) else s)
  {
  }

  /** In `Iac` a second IAC is an escaped data byte: back to `Read` with the
      pair still in the span. */
  lemma StepEscapedIac(s: Scan, chunk: seq<byte>, i: nat)
    requires s.start <= i < |chunk| && s.engine.state == Iac && chunk[i] == IAC
    ensures Step(s, chunk, i) == Ok(s.(engine := s.engine.(state := Read)))
  {
  }

  /** A command byte after IAC: the span before the IAC is flushed as one
      data event (none if it is empty), the IAC and the command byte are
      dropped, the buffer is left empty and the command's state entered. */
  lemma StepCommand(s: Scan, chunk: seq<byte>, i: nat)
    requires s.start <= i < |chunk| && s.engine.state == Iac && IsCommand(chunk[i])
    requires |Span(s, chunk, i)| > 0
    ensures var before := Span(s, chunk, i)[..|Span(s, chunk, i)| - 1];
            && Step(s, chunk, i).Ok?
            && Step(s, chunk, i).value.engine.state == CommandState(chunk[i])
            && Step(s, chunk, i).value.engine.options == s.engine.options
            && Length(Step(s, chunk, i).value.engine.buffer) == 0
            && Step(s, chunk, i).value.start == i + 1
            && Step(s, chunk, i).value.events
               == s.events + (if |before| > 0 then [Data(Collapse(before))] else [])
  {
    var span := Span(s, chunk, i);
    assert chunk[s.start..i + 1] == chunk[s.start..i] + [chunk[i]];
    var pushed := Push(s.engine.buffer, chunk[s.start..i + 1]);
    assert Contents(pushed) == span + [chunk[i]];
    assert Contents(PopTail(pushed, 2)) == span[..|span| - 1];
  }

  /** WILL / DO and WONT / DONT consume exactly one option byte: it goes to
      the option table, never to the data, and the machine returns to
      `Read` with `startIndex` past it. */
  lemma StepOption(s: Scan, chunk: seq<byte>, i: nat)
    requires s.start <= i < |chunk| && s.engine.state in {Will, Wont, Do, Dont}
    requires Length(s.engine.buffer) == 0
    ensures var decided := if s.engine.state in {Will, Do} then AcceptOption(s.engine.options, chunk[i])
                           else RejectOption(s.engine.options, chunk[i]);
            && (decided.Fail? ==> Step(s, chunk, i) == Fail(decided.error))
            && (decided.Ok? ==> Step(s, chunk, i)
                                == Ok(Scan(Engine(Read, New(), decided.value.0), i + 1, s.events + [decided.value.1])))
  {
  }

  /** Inside a sub-negotiation, IAC moves to `SbIac` and every other byte
      stays in the span. */
  lemma StepInSb(s: Scan, chunk: seq<byte>, i: nat)
    requires s.start <= i < |chunk| && s.engine.state == Sb
    ensures Step(s, chunk, i) == Ok(if chunk[i] == IAC then s.(engine := s.engine.(state := SbIac)) else s)
  {
  }

  /** After IAC inside a sub-negotiation: IAC is an escaped byte (back to
      `Sb`); SE reports the span without its IAC SE and leaves the machine
      in `SbIac`, because the source stores the new state in a global
      (src/telnet.js:220); anything else is fatal. */
  lemma StepInSbIac(s: Scan, chunk: seq<byte>, i: nat)
    requires s.start <= i < |chunk| && s.engine.state == SbIac
    ensures chunk[i] == IAC ==> Step(s, chunk, i) == Ok(s.(engine := s.engine.(state := Sb)))
    ensures chunk[i] != IAC && chunk[i] != SE ==> Step(s, chunk, i) == Fail(ExpectedSe(chunk[i]))
    ensures chunk[i] == SE && |Span(s, chunk, i)| < 1 ==> Step(s, chunk, i) == Fail(TrimUnderflow(SbIac))
    ensures chunk[i] == SE && |Span(s, chunk, i)| >= 1 ==>
              var payload := Span(s, chunk, i)[..|Span(s, chunk, i)| - 1];
              && Step(s, chunk, i).Ok?
              && Step(s, chunk, i).value.engine.state == SbIac
              && Step(s, chunk, i).value.engine.options == s.engine.options
              && Length(Step(s, chunk, i).value.engine.buffer) == 0
              && Step(s, chunk, i).value.start == i + 1
              && Step(s, chunk, i).value.events == s.events + [Subnegotiation(payload)]
  {
    if chunk[i] == SE {
      var span := Span(s, chunk, i);
      assert chunk[s.start..i + 1] == chunk[s.start..i] + [chunk[i]];
      var pushed := Push(s.engine.buffer, chunk[s.start..i + 1]);
      assert Contents(pushed) == span + [chunk[i]];
      if |span| >= 1 {
        assert Contents(PopTail(pushed, 2)) == span[..|span| - 1];
      }
    }
  }

  // ---------------------------------------------------------------------
  // The invariant behind the engine's assertions

  /** Between feeds: in `Iac` the pending bytes end with the IAC just seen;
      in a negotiation state nothing is pending. */
  ghost predicate Valid(e: Engine)
  {
    && (e.state == Iac ==> Length(e.buffer) > 0 && Contents(e.buffer)[Length(e.buffer) - 1] == IAC)
    && (e.state in {Will, Wont, Do, Dont} ==> Length(e.buffer) == 0)
  }

  /** The same inside the byte loop, over the whole current span. */
  ghost predicate ScanValid(s: Scan, chunk: seq<byte>, i: nat)
    requires s.start <= i <= |chunk|
  {
    var span := Span(s, chunk, i);
    && (s.engine.state == Iac ==> |span| > 0 && span[|span| - 1] == IAC)
    && (s.engine.state in {Will, Wont, Do, Dont} ==> Length(s.engine.buffer) == 0 && s.start == i)
  }

  /** No assertion about the buffer fires: "Buffer not empty" never, and
      `pop(2)` after IAC always has its two bytes. */
  ghost predicate Benign(f: Fault)
  {
    !f.BufferNotEmpty? && f != TrimUnderflow(Iac)
  }

  lemma InitialValid()
    ensures Valid(Initial())
  {
  }

  lemma StepPreservesValid(s: Scan, chunk: seq<byte>, i: nat)
    requires s.start <= i < |chunk| && ScanValid(s, chunk, i)
    ensures Step(s, chunk, i).Fail? ==> Benign(Step(s, chunk, i).error)
    ensures Step(s, chunk, i).Ok? ==> Step(s, chunk, i).value.start <= i + 1
    ensures Step(s, chunk, i).Ok? ==> ScanValid(Step(s, chunk, i).value, chunk, i + 1)
  {
    assert chunk[s.start..i + 1] == chunk[s.start..i] + [chunk[i]];
    assert Span(s, chunk, i + 1) == Span(s, chunk, i) + [chunk[i]];
    match s.engine.state
    case Read =>
      StepInRead(s, chunk, i);
    case Will | Wont | Do | Dont =>
      StepOption(s, chunk, i);
    case Iac =>
      if chunk[i] == IAC {
        StepEscapedIac(s, chunk, i);
      } else if IsCommand(chunk[i]) {
        StepCommand(s, chunk, i);
      }
    case Sb =>
      StepInSb(s, chunk, i);
    case SbIac =>
      StepInSbIac(s, chunk, i);
  }

  lemma {:induction false} RunPreservesValid(s: Scan, chunk: seq<byte>, i: nat)
    requires s.start <= i <= |chunk| && ScanValid(s, chunk, i)
    ensures Run(s, chunk, i).Fail? ==> Benign(Run(s, chunk, i).error)
    ensures Run(s, chunk, i).Ok? ==> ScanValid(Run(s, chunk, i).value, chunk, |chunk|)
    decreases |chunk| - i
  {
    if i < |chunk| {
      StepPreservesValid(s, chunk, i);
      if Step(s, chunk, i).Ok? {
        RunPreservesValid(Step(s, chunk, i).value, chunk, i + 1);
      }
    }
  }

  /** A feed from a valid engine never trips the "Buffer not empty"
      assertions or the trim after IAC and a command, and leaves a valid
      engine. The trim after a second SE is not covered: see
      `AfterSubnegotiationStuck`. */
  lemma FeedPreservesValid(e: Engine, chunk: seq<byte>)
    requires Valid(e)
    ensures Feed(e, chunk).Fail? ==> Benign(Feed(e, chunk).error)
    ensures Feed(e, chunk).Ok? ==> Valid(Feed(e, chunk).value.0)
  {
    if |chunk| > 0 {
      var s0 := Scan(e, 0, []);
      assert Span(s0, chunk, 0) == Contents(e.buffer);
      RunPreservesValid(s0, chunk, 0);
    }
  }

  lemma {:induction false} FeedAllPreservesValid(e: Engine, chunks: seq<seq<byte>>)
    requires Valid(e)
    ensures FeedAll(e, chunks).Fail? ==> Benign(FeedAll(e, chunks).error)
    ensures FeedAll(e, chunks).Ok? ==> Valid(FeedAll(e, chunks).value.0)
    decreases |chunks|
  {
    if |chunks| > 0 {
      FeedPreservesValid(e, chunks[0]);
      if Feed(e, chunks[0]).Ok? {
        FeedAllPreservesValid(Feed(e, chunks[0]).value.0, chunks[1..]);
      }
    }
  }

  // ---------------------------------------------------------------------
  // Unfolding steps of the byte loop

  lemma RunStep(s: Scan, chunk: seq<byte>, i: nat)
    requires s.start <= i < |chunk| && Step(s, chunk, i).Ok?
    ensures Run(s, chunk, i) == Run(Step(s, chunk, i).value, chunk, i + 1)
  {
  }

  lemma RunEnd(s: Scan, chunk: seq<byte>)
    requires s.start <= |chunk|
    ensures Run(s, chunk, |chunk|) == Ok(s)
  {
  }

  lemma FeedFromRun(e: Engine, chunk: seq<byte>, s: Scan)
    requires |chunk| > 0 && Run(Scan(e, 0, []), chunk, 0) == Ok(s)
    ensures s.start <= |chunk|
    ensures Feed(e, chunk) == Ok(Finish(s, chunk))
  {
  }

  /** End of chunk in `Read` with nothing left over: no event, no change. */
  lemma FinishIdle(s: Scan, chunk: seq<byte>)
    requires s.start == |chunk| && s.engine.state == Read && Length(s.engine.buffer) == 0
    ensures Finish(s, chunk) == (s.engine, s.events)
  {
    assert EmitData(s.engine) == (s.engine, []);
    assert s.events + [] == s.events;
  }

  /** End of chunk in `Read` with only chunk bytes left over: they are
      flushed as one data event. */
  lemma FinishFlush(s: Scan, chunk: seq<byte>)
    requires s.start < |chunk| && s.engine.state == Read && Length(s.engine.buffer) == 0
    ensures Finish(s, chunk) == (s.engine.(buffer := New()), s.events + [Data(Collapse(chunk[s.start..]))])
  {
    var e := s.engine.(buffer := Push(s.engine.buffer, chunk[s.start..]));
    assert Contents(e.buffer) == chunk[s.start..];
    assert EmitData(e) == (e.(buffer := Clear(e.buffer)), [Data(Collapse(chunk[s.start..]))]);
    assert e.(buffer := Clear(e.buffer)) == s.engine.(buffer := New());
  }

  // ---------------------------------------------------------------------
  // Data

  /** In `Read` (or `Sb`) a well-escaped stretch of the chunk leaves the
      scan exactly as it was: no event, no state change, nothing pushed. */
  lemma {:induction false} RunSkipsEscaped(s: Scan, chunk: seq<byte>, i: nat, j: nat)
    requires s.start <= i <= j <= |chunk|
    requires s.engine.state == Read || s.engine.state == Sb
    requires WellEscaped(chunk[i..j])
    ensures Run(s, chunk, i) == Run(s, chunk, j)
    decreases j - i
  {
    if i < j {
      var t := chunk[i..j];
      if chunk[i] != IAC {
        assert t[1..] == chunk[i + 1..j];
        assert Step(s, chunk, i) == Ok(s);
        RunSkipsEscaped(s, chunk, i + 1, j);
      } else {
        assert t[1] == chunk[i + 1] && t[2..] == chunk[i + 2..j];
        var mid := s.(engine := s.engine.(state := if s.engine.state == Read then Iac else SbIac));
        assert Step(s, chunk, i) == Ok(mid);
        assert mid.(engine := mid.engine.(state := s.engine.state)) == s;
        assert Step(mid, chunk, i + 1) == Ok(s);
        assert Run(s, chunk, i) == Run(mid, chunk, i + 1) == Run(s, chunk, i + 2);
        RunSkipsEscaped(s, chunk, i + 2, j);
      }
    }
  }

  /** `_emitData` hands out exactly the bytes that were escaped into the
      pending buffer. */
  lemma EmitDataDeliversEscaped(e: Engine, d: seq<byte>)
    requires Contents(e.buffer) == Escape(d) && |d| > 0
    ensures EmitData(e).1 == [Data(d)]
  {
    CollapseEscape(d);
  }

  /** A well-escaped chunk fed to an idle engine comes out as one data event
      holding the collapsed chunk; the engine stays idle. */
  lemma FeedWellEscaped(e: Engine, chunk: seq<byte>)
    requires e.state == Read && Length(e.buffer) == 0
    requires |chunk| > 0 && WellEscaped(chunk)
    ensures Feed(e, chunk) == Ok((e.(buffer := New()), [Data(Collapse(chunk))]))
  {
    var s0 := Scan(e, 0, []);
    assert chunk[0..|chunk|] == chunk;
    RunSkipsEscaped(s0, chunk, 0, |chunk|);
    RunEnd(s0, chunk);
    FeedFromRun(e, chunk, s0);
    FinishFlush(s0, chunk);
    assert chunk[0..] == chunk;
    assert Finish(s0, chunk) == (e.(buffer := New()), [] + [Data(Collapse(chunk))]);
    assert [] + [Data(Collapse(chunk))] == [Data(Collapse(chunk))];
  }

  /** Plain data: a chunk without IAC fed to an idle engine is delivered
      verbatim as one data event. */
  lemma FeedPlainData(e: Engine, chunk: seq<byte>)
    requires e.state == Read && Length(e.buffer) == 0
    requires |chunk| > 0 && CountIac(chunk) == 0
    ensures Feed(e, chunk) == Ok((e.(buffer := New()), [Data(chunk)]))
  {
    EscapeWithoutIac(chunk);
    EscapeIsWellEscaped(chunk);
    FeedWellEscaped(e, chunk);
  }

  /** Send and receive agree: what `escapeSendData` puts on the wire, fed
      to an idle engine, comes back as the original bytes. */
  lemma SendThenReceive(e: Engine, d: seq<byte>)
    requires e.state == Read && Length(e.buffer) == 0 && |d| > 0
    ensures Feed(e, Escape(d)) == Ok((e.(buffer := New()), [Data(d)]))
  {
    EscapeIsWellEscaped(d);
    CollapseEscape(d);
    FeedWellEscaped(e, Escape(d));
  }

  // ---------------------------------------------------------------------
  // Negotiation and sub-negotiation

  predicate IsNegotiation(cmd: byte)
  {
    cmd == WILL || cmd == WONT || cmd == DO || cmd == DONT
  }

  /** What the option table makes of `cmd option`. */
  function Negotiate(opts: Options, cmd: byte, option: byte): Result<(Options, Event), Fault>
    requires IsNegotiation(cmd)
  {
    if cmd == WILL || cmd == DO then AcceptOption(opts, option) else RejectOption(opts, option)
  }

  /** The outcome of a whole negotiation received by an idle engine. */
  function Negotiated(e: Engine, cmd: byte, option: byte): Result<(Engine, seq<Event>), Fault>
    requires IsNegotiation(cmd)
  {
    var n :- Negotiate(e.options, cmd, option);
    Ok((Engine(Read, New(), n.0), [n.1]))
  }

  /** A command byte met in `Iac`, as one step of the loop. */
  lemma RunAfterIac(s: Scan, chunk: seq<byte>, j: nat, span: seq<byte>) returns (t: Scan)
    requires s.start <= j < |chunk| && s.engine.state == Iac && IsCommand(chunk[j])
    requires Span(s, chunk, j) == span + [IAC]
    ensures t.engine.state == CommandState(chunk[j]) && t.engine.options == s.engine.options
    ensures Length(t.engine.buffer) == 0 && t.start == j + 1
    ensures t.events == s.events + (if |span| > 0 then [Data(Collapse(span))] else [])
    ensures Run(s, chunk, j) == Run(t, chunk, j + 1)
  {
    assert (span + [IAC])[..|span|] == span;
    StepCommand(s, chunk, j);
    t := Step(s, chunk, j).value;
    RunStep(s, chunk, j);
  }

  /** IAC and a command byte met in `Read`: the span before the IAC is
      flushed and the command's state entered with nothing pending. */
  lemma RunThroughCommand(s: Scan, chunk: seq<byte>, k: nat) returns (t: Scan)
    requires s.start <= k && k + 1 < |chunk| && s.engine.state == Read
    requires chunk[k] == IAC && IsCommand(chunk[k + 1])
    ensures t.engine.state == CommandState(chunk[k + 1]) && t.engine.options == s.engine.options
    ensures Length(t.engine.buffer) == 0 && t.start == k + 2
    ensures t.events == s.events + (if |Span(s, chunk, k)| > 0 then [Data(Collapse(Span(s, chunk, k)))] else [])
    ensures Run(s, chunk, k) == Run(t, chunk, k + 2)
  {
    var s1 := RunReadIac(s, chunk, k);
    t := RunAfterIac(s1, chunk, k + 1, Span(s, chunk, k));
  }

  /** IAC met in `Read`, as one step of the loop: it joins the span. */
  lemma RunReadIac(s: Scan, chunk: seq<byte>, k: nat) returns (s1: Scan)
    requires s.start <= k < |chunk| && s.engine.state == Read && chunk[k] == IAC
    ensures s1.start == s.start && s1.start <= k + 1 && s1.events == s.events
    ensures s1.engine.state == Iac && s1.engine.options == s.engine.options
    ensures Span(s1, chunk, k + 1) == Span(s, chunk, k) + [IAC]
    ensures Run(s, chunk, k) == Run(s1, chunk, k + 1)
  {
    s1 := s.(engine := s.engine.(state := Iac));
    StepInRead(s, chunk, k);
    RunStep(s, chunk, k);
    assert chunk[s.start..k + 1] == chunk[s.start..k] + [IAC];
  }

  /** The option byte after WILL, WONT, DO or DONT, as the last byte of the
      chunk. */
  lemma RunThroughOption(s: Scan, chunk: seq<byte>, i: nat, cmd: byte)
    requires s.start == i && i + 1 == |chunk| && IsNegotiation(cmd)
    requires s.engine.state == CommandState(cmd) && Length(s.engine.buffer) == 0
    ensures var n := Negotiate(s.engine.options, cmd, chunk[i]);
            && (n.Fail? ==> Run(s, chunk, i) == Fail(n.error))
            && (n.Ok? ==> Run(s, chunk, i) == Ok(Scan(Engine(Read, New(), n.value.0), i + 1, s.events + [n.value.1])))
  {
    StepOption(s, chunk, i);
    if Step(s, chunk, i).Ok? {
      RunStep(s, chunk, i);
      RunEnd(Step(s, chunk, i).value, chunk);
    }
  }

  /** The byte loop over data, IAC, a negotiation command and its option. */
  lemma RunDataThenNegotiation(e: Engine, chunk: seq<byte>, d: seq<byte>, cmd: byte)
    requires e.state == Read && Length(e.buffer) == 0
    requires WellEscaped(d) && IsNegotiation(cmd)
    requires |chunk| == |d| + 3 && chunk[..|d|] == d
    requires chunk[|d|] == IAC && chunk[|d| + 1] == cmd
    ensures var n := Negotiate(e.options, cmd, chunk[|d| + 2]);
            var flushed := if |d| > 0 then [Data(Collapse(d))] else [];
            && (n.Fail? ==> Run(Scan(e, 0, []), chunk, 0) == Fail(n.error))
            && (n.Ok? ==> Run(Scan(e, 0, []), chunk, 0)
                          == Ok(Scan(Engine(Read, New(), n.value.0), |chunk|, flushed + [n.value.1])))
  {
    var s2 := RunDataThenCommand(e, chunk, d);
    RunThroughOption(s2, chunk, |d| + 2, cmd);
  }

  /** The byte loop over well-escaped data, IAC and a command byte. */
  lemma RunDataThenCommand(e: Engine, chunk: seq<byte>, d: seq<byte>) returns (t: Scan)
    requires e.state == Read && Length(e.buffer) == 0 && WellEscaped(d)
    requires |d| + 1 < |chunk| && chunk[..|d|] == d
    requires chunk[|d|] == IAC && IsCommand(chunk[|d| + 1])
    ensures t.engine.state == CommandState(chunk[|d| + 1]) && t.engine.options == e.options
    ensures Length(t.engine.buffer) == 0 && t.start == |d| + 2
    ensures t.events == (if |d| > 0 then [Data(Collapse(d))] else [])
    ensures Run(Scan(e, 0, []), chunk, 0) == Run(t, chunk, |d| + 2)
  {
    var k := |d|;
    var s0 := Scan(e, 0, []);
    assert chunk[0..k] == d;
    RunSkipsEscaped(s0, chunk, 0, k);
    assert Span(s0, chunk, k) == d;
    t := RunThroughCommand(s0, chunk, k);
  }

  /** Data followed by IAC cmd option in one chunk: the data is delivered
      first, then the negotiation event; neither the command nor the option
      byte reaches a data event. */
  lemma FeedDataThenNegotiation(e: Engine, d: seq<byte>, cmd: byte, option: byte)
    requires e.state == Read && Length(e.buffer) == 0
    requires WellEscaped(d) && IsNegotiation(cmd)
    ensures var n := Negotiate(e.options, cmd, option);
            n.Fail? ==> Feed(e, d + [IAC, cmd, option]) == Fail(n.error)
    ensures var n := Negotiate(e.options, cmd, option);
            var flushed := if |d| > 0 then [Data(Collapse(d))] else [];
            n.Ok? ==> Feed(e, d + [IAC, cmd, option]) == Ok((Engine(Read, New(), n.value.0), flushed + [n.value.1]))
  {
    var chunk := d + [IAC, cmd, option];
    RunDataThenNegotiation(e, chunk, d, cmd);
    var n := Negotiate(e.options, cmd, option);
    if n.Ok? {
      var flushed := if |d| > 0 then [Data(Collapse(d))] else [];
      var s3 := Scan(Engine(Read, New(), n.value.0), |chunk|, flushed + [n.value.1]);
      FeedFromRun(e, chunk, s3);
      FinishIdle(s3, chunk);
    }
  }

  /** A negotiation received by an idle engine produces its one event and
      leaves the engine idle. */
  lemma FeedNegotiation(e: Engine, cmd: byte, option: byte)
    requires e.state == Read && Length(e.buffer) == 0 && IsNegotiation(cmd)
    ensures Feed(e, [IAC, cmd, option]) == Negotiated(e, cmd, option)
  {
    FeedDataThenNegotiation(e, [], cmd, option);
    assert [] + [IAC, cmd, option] == [IAC, cmd, option];
    var n := Negotiate(e.options, cmd, option);
    if n.Ok? {
      assert [] + [n.value.1] == [n.value.1];
    }
  }

  /** Feeding a list of chunks is feeding the first, then the rest. */
  lemma FeedAllStep(e: Engine, chunks: seq<seq<byte>>)
    requires |chunks| > 0 && Feed(e, chunks[0]).Ok?
    ensures var first := Feed(e, chunks[0]).value;
            var rest := FeedAll(first.0, chunks[1..]);
            FeedAll(e, chunks) == if rest.Fail? then Fail(rest.error) else Ok((rest.value.0, first.1 + rest.value.1))
  {
  }

  lemma FeedAllSingle(e: Engine, c: seq<byte>)
    ensures FeedAll(e, [c]) == Feed(e, c)
  {
    assert [c][1..] == [];
    if Feed(e, c).Ok? {
      FeedAllStep(e, [c]);
      assert Feed(e, c).value.1 + [] == Feed(e, c).value.1;
    }
  }

  /** A lone IAC in `Read` is withheld: no event, the IAC pending. */
  lemma FeedLoneIac(e: Engine)
    requires e.state == Read && Length(e.buffer) == 0
    ensures Feed(e, [IAC]).Ok? && Feed(e, [IAC]).value.1 == []
    ensures Feed(e, [IAC]).value.0.state == Iac && Feed(e, [IAC]).value.0.options == e.options
    ensures Contents(Feed(e, [IAC]).value.0.buffer) == [IAC]
  {
    var s0 := Scan(e, 0, []);
    var s1 := s0.(engine := e.(state := Iac));
    StepInRead(s0, [IAC], 0);
    RunStep(s0, [IAC], 0);
    RunEnd(s1, [IAC]);
    FeedFromRun(e, [IAC], s1);
    assert Span(s1, [IAC], 1) == [IAC];
  }

  /** A command byte completing an IAC left pending by an earlier feed: no
      event, the command's state entered, nothing pending. */
  lemma FeedCommandAfterIac(e: Engine, c: seq<byte>)
    requires e.state == Iac && Contents(e.buffer) == [IAC]
    requires |c| >= 1 && IsCommand(c[0])
    ensures Run(Scan(e, 0, []), c, 0) == Run(Scan(Engine(CommandState(c[0]), Step(Scan(e, 0, []), c, 0).value.engine.buffer, e.options), 1, []), c, 1)
    ensures Length(Step(Scan(e, 0, []), c, 0).value.engine.buffer) == 0
  {
    var t0 := Scan(e, 0, []);
    assert Span(t0, c, 0) == [IAC];
    StepCommand(t0, c, 0);
    assert [IAC][..0] == [];
    RunStep(t0, c, 0);
  }

  /** The option byte alone, after its command arrived in an earlier feed. */
  lemma FeedOptionAlone(e: Engine, cmd: byte, option: byte)
    requires IsNegotiation(cmd) && e.state == CommandState(cmd) && Length(e.buffer) == 0
    ensures Feed(e, [option]) == Negotiated(e, cmd, option)
  {
    var t0 := Scan(e, 0, []);
    RunThroughOption(t0, [option], 0, cmd);
    var n := Negotiate(e.options, cmd, option);
    if n.Ok? {
      assert [] + [n.value.1] == [n.value.1];
      var t1 := Scan(Engine(Read, New(), n.value.0), 1, [n.value.1]);
      FeedFromRun(e, [option], t1);
      FinishIdle(t1, [option]);
    }
  }

  /** IAC and the command in one feed: no event, nothing pending. */
  lemma FeedIacCommand(e: Engine, cmd: byte)
    requires e.state == Read && Length(e.buffer) == 0 && IsNegotiation(cmd)
    ensures Feed(e, [IAC, cmd]).Ok? && Feed(e, [IAC, cmd]).value.1 == []
    ensures Feed(e, [IAC, cmd]).value.0.state == CommandState(cmd)
    ensures Feed(e, [IAC, cmd]).value.0.options == e.options
    ensures Length(Feed(e, [IAC, cmd]).value.0.buffer) == 0
  {
    var c := [IAC, cmd];
    var s0 := Scan(e, 0, []);
    assert Span(s0, c, 0) == [];
    var t := RunThroughCommand(s0, c, 0);
    RunEnd(t, c);
    FeedFromRun(e, c, t);
  }

  /** The command and its option in one feed, after a lone IAC. */
  lemma FeedCommandOption(e: Engine, cmd: byte, option: byte)
    requires e.state == Iac && Contents(e.buffer) == [IAC] && IsNegotiation(cmd)
    ensures Feed(e, [cmd, option]) == Negotiated(e, cmd, option)
  {
    var c := [cmd, option];
    FeedCommandAfterIac(e, c);
    var t1 := Scan(Engine(CommandState(cmd), Step(Scan(e, 0, []), c, 0).value.engine.buffer, e.options), 1, []);
    RunThroughOption(t1, c, 1, cmd);
    var n := Negotiate(e.options, cmd, option);
    if n.Ok? {
      assert [] + [n.value.1] == [n.value.1];
      var t2 := Scan(Engine(Read, New(), n.value.0), 2, [n.value.1]);
      FeedFromRun(e, c, t2);
      FinishIdle(t2, c);
    }
  }

  /** The command alone, after a lone IAC. */
  lemma FeedCommandAlone(e: Engine, cmd: byte)
    requires e.state == Iac && Contents(e.buffer) == [IAC] && IsNegotiation(cmd)
    ensures Feed(e, [cmd]).Ok? && Feed(e, [cmd]).value.1 == []
    ensures Feed(e, [cmd]).value.0.state == CommandState(cmd)
    ensures Feed(e, [cmd]).value.0.options == e.options
    ensures Length(Feed(e, [cmd]).value.0.buffer) == 0
  {
    var c := [cmd];
    FeedCommandAfterIac(e, c);
    var t1 := Scan(Engine(CommandState(cmd), Step(Scan(e, 0, []), c, 0).value.engine.buffer, e.options), 1, []);
    RunEnd(t1, c);
    FeedFromRun(e, c, t1);
  }

  /** A negotiation split across feeds at any byte boundary yields the same
      engine and the same events as the negotiation in one feed. */
  lemma NegotiationSplitInvariant(e: Engine, cmd: byte, option: byte)
    requires e.state == Read && Length(e.buffer) == 0 && IsNegotiation(cmd)
    ensures FeedAll(e, [[IAC, cmd, option]]) == Negotiated(e, cmd, option)
    ensures FeedAll(e, [[IAC], [cmd, option]]) == Negotiated(e, cmd, option)
    ensures FeedAll(e, [[IAC, cmd], [option]]) == Negotiated(e, cmd, option)
    ensures FeedAll(e, [[IAC], [cmd], [option]]) == Negotiated(e, cmd, option)
  {
    FeedNegotiation(e, cmd, option);
    FeedAllSingle(e, [IAC, cmd, option]);
    SplitAfterIac(e, cmd, option);
    SplitAfterCommand(e, cmd, option);
    SplitTwice(e, cmd, option);
  }

  /** A delivery after which the rest of the negotiation comes in one more
      delivery. */
  lemma FeedAllThenNegotiated(e: Engine, first: seq<byte>, rest: seq<byte>, cmd: byte, option: byte)
    requires IsNegotiation(cmd) && Feed(e, first).Ok? && Feed(e, first).value.1 == []
    requires Feed(Feed(e, first).value.0, rest) == Negotiated(e, cmd, option)
    ensures FeedAll(e, [first, rest]) == Negotiated(e, cmd, option)
  {
    var e1 := Feed(e, first).value.0;
    FeedAllSingle(e1, rest);
    FeedAllStep(e, [first, rest]);
    assert [first, rest][1..] == [rest];
    var n := Negotiated(e, cmd, option);
    if n.Ok? {
      assert [] + n.value.1 == n.value.1;
    }
  }

  lemma SplitAfterIac(e: Engine, cmd: byte, option: byte)
    requires e.state == Read && Length(e.buffer) == 0 && IsNegotiation(cmd)
    ensures FeedAll(e, [[IAC], [cmd, option]]) == Negotiated(e, cmd, option)
  {
    FeedLoneIac(e);
    FeedCommandOption(Feed(e, [IAC]).value.0, cmd, option);
    FeedAllThenNegotiated(e, [IAC], [cmd, option], cmd, option);
  }

  lemma SplitAfterCommand(e: Engine, cmd: byte, option: byte)
    requires e.state == Read && Length(e.buffer) == 0 && IsNegotiation(cmd)
    ensures FeedAll(e, [[IAC, cmd], [option]]) == Negotiated(e, cmd, option)
  {
    FeedIacCommand(e, cmd);
    var e2 := Feed(e, [IAC, cmd]).value.0;
    FeedOptionAlone(e2, cmd, option);
    assert Negotiated(e2, cmd, option) == Negotiated(e, cmd, option);
    FeedAllThenNegotiated(e, [IAC, cmd], [option], cmd, option);
  }

  lemma SplitTwice(e: Engine, cmd: byte, option: byte)
    requires e.state == Read && Length(e.buffer) == 0 && IsNegotiation(cmd)
    ensures FeedAll(e, [[IAC], [cmd], [option]]) == Negotiated(e, cmd, option)
  {
    FeedLoneIac(e);
    var e1 := Feed(e, [IAC]).value.0;
    FeedCommandAlone(e1, cmd);
    var e3 := Feed(e1, [cmd]).value.0;
    FeedOptionAlone(e3, cmd, option);
    assert Negotiated(e3, cmd, option) == Negotiated(e1, cmd, option) == Negotiated(e, cmd, option);
    FeedAllThenNegotiated(e1, [cmd], [option], cmd, option);
    FeedAllStep(e, [[IAC], [cmd], [option]]);
    assert [[IAC], [cmd], [option]][1..] == [[cmd], [option]];
    var n := Negotiated(e, cmd, option);
    if n.Ok? {
      assert [] + n.value.1 == n.value.1;
    }
  }

  /** After IAC only IAC, WILL, WONT, DO, DONT and SB are accepted: any other
      command byte (NOP, GA, AYT, ...) aborts the feed, wherever the IAC
      came from. */
  lemma IacThenOtherIsFatal(e: Engine, chunk: seq<byte>)
    requires e.state == Iac && |chunk| > 0
    requires chunk[0] != IAC && !IsCommand(chunk[0])
    ensures Feed(e, chunk) == Fail(InvalidCommand(chunk[0]))
  {
  }

  /** The frame IAC SB payload IAC SE, position by position. */
  predicate SubnegotiationFrame(chunk: seq<byte>, payload: seq<byte>)
  {
    && |chunk| == |payload| + 4
    && chunk[0] == IAC && chunk[1] == SB
    && chunk[2..|payload| + 2] == payload
    && chunk[|payload| + 2] == IAC && chunk[|payload| + 3] == SE
  }

  lemma FrameOfSubnegotiation(payload: seq<byte>)
    ensures SubnegotiationFrame([IAC, SB] + payload + [IAC, SE], payload)
  {
    var chunk := [IAC, SB] + payload + [IAC, SE];
    assert chunk[2..|payload| + 2] == payload;
  }

  /** The byte loop over IAC SB payload IAC, stopping before the SE. */
  lemma RunSubnegotiationOpen(e: Engine, chunk: seq<byte>, payload: seq<byte>) returns (t: Scan)
    requires e.state == Read && Length(e.buffer) == 0 && WellEscaped(payload)
    requires SubnegotiationFrame(chunk, payload)
    ensures t.events == [] && t.start == 2 && t.engine.state == SbIac && t.engine.options == e.options
    ensures Length(t.engine.buffer) == 0
    ensures Run(Scan(e, 0, []), chunk, 0) == Run(t, chunk, |payload| + 3)
  {
    var s0 := Scan(e, 0, []);
    var s2 := RunIacSb(s0, chunk);
    assert chunk[2..|payload| + 2] == payload;
    t := RunSbThenIac(s2, chunk, |payload| + 2);
  }

  /** IAC SB at the head of a chunk fed to an idle engine: no event, `Sb`
      entered with nothing pending and `startIndex` past the two bytes. */
  lemma RunIacSb(s: Scan, chunk: seq<byte>) returns (t: Scan)
    requires s.start == 0 && s.engine.state == Read && Length(s.engine.buffer) == 0
    requires |chunk| >= 2 && chunk[0] == IAC && chunk[1] == SB
    ensures t.engine.state == Sb && t.engine.options == s.engine.options
    ensures Length(t.engine.buffer) == 0 && t.start == 2 && t.events == s.events
    ensures Run(s, chunk, 0) == Run(t, chunk, 2)
  {
    assert Span(s, chunk, 0) == [];
    t := RunThroughCommand(s, chunk, 0);
    assert s.events + [] == s.events;
  }

  /** Inside a sub-negotiation, a well-escaped stretch up to an IAC. */
  lemma RunSbThenIac(s: Scan, chunk: seq<byte>, j: nat) returns (t: Scan)
    requires s.start <= 2 <= j < |chunk| && s.engine.state == Sb
    requires WellEscaped(chunk[2..j]) && chunk[j] == IAC
    ensures t == s.(engine := s.engine.(state := SbIac))
    ensures Run(s, chunk, 2) == Run(t, chunk, j + 1)
  {
    RunSkipsEscaped(s, chunk, 2, j);
    t := s.(engine := s.engine.(state := SbIac));
    StepInSb(s, chunk, j);
    RunStep(s, chunk, j);
  }

  lemma SubnegotiationSpan(s: Scan, chunk: seq<byte>, payload: seq<byte>)
    requires SubnegotiationFrame(chunk, payload)
    requires s.start == 2 && Length(s.engine.buffer) == 0
    ensures Span(s, chunk, |payload| + 3) == payload + [IAC]
  {
    assert chunk[2..|payload| + 3] == chunk[2..|payload| + 2] + [chunk[|payload| + 2]];
  }

  /** The closing SE, as the last step of the loop: the span without its
      IAC is reported. */
  lemma RunSubnegotiationClose(s: Scan, chunk: seq<byte>, payload: seq<byte>) returns (t: Scan)
    requires s.start <= |payload| + 3 && |chunk| == |payload| + 4 && chunk[|payload| + 3] == SE
    requires s.engine.state == SbIac && s.events == []
    requires Span(s, chunk, |payload| + 3) == payload + [IAC]
    ensures Run(s, chunk, |payload| + 3) == Ok(t)
    ensures t == Scan(Engine(SbIac, New(), s.engine.options), |chunk|, [Subnegotiation(payload)])
  {
    var i := |payload| + 3;
    assert (payload + [IAC])[..|payload|] == payload;
    StepInSbIac(s, chunk, i);
    t := Step(s, chunk, i).value;
    assert [] + [Subnegotiation(payload)] == [Subnegotiation(payload)];
    RunStep(s, chunk, i);
    RunEnd(t, chunk);
  }

  /** The byte loop over IAC SB payload IAC SE. */
  lemma RunSubnegotiation(e: Engine, chunk: seq<byte>, payload: seq<byte>) returns (t: Scan)
    requires e.state == Read && Length(e.buffer) == 0 && WellEscaped(payload)
    requires SubnegotiationFrame(chunk, payload)
    ensures Run(Scan(e, 0, []), chunk, 0) == Ok(t)
    ensures t == Scan(Engine(SbIac, New(), e.options), |chunk|, [Subnegotiation(payload)])
  {
    var s3 := RunSubnegotiationOpen(e, chunk, payload);
    SubnegotiationSpan(s3, chunk, payload);
    t := RunSubnegotiationClose(s3, chunk, payload);
  }

  /** A complete sub-negotiation IAC SB payload IAC SE received by an idle
      engine is reported once; the engine is left in `SbIac`, not `Read`. */
  lemma FeedSubnegotiation(e: Engine, payload: seq<byte>)
    requires e.state == Read && Length(e.buffer) == 0 && WellEscaped(payload)
    ensures Feed(e, [IAC, SB] + payload + [IAC, SE])
            == Ok((Engine(SbIac, New(), e.options), [Subnegotiation(payload)]))
  {
    var chunk := [IAC, SB] + payload + [IAC, SE];
    FrameOfSubnegotiation(payload);
    var t := RunSubnegotiation(e, chunk, payload);
    FeedFromRun(e, chunk, t);
  }

  /** Because the state after IAC SE is never reset (src/telnet.js:220),
      the next byte decides the connection: IAC reopens a sub-negotiation,
      SE finds no IAC to drop, and anything else fails the SE assertion. */
  lemma AfterSubnegotiationStuck(e: Engine, chunk: seq<byte>)
    requires e.state == SbIac && Length(e.buffer) == 0 && |chunk| > 0
    ensures chunk[0] != IAC && chunk[0] != SE ==> Feed(e, chunk) == Fail(ExpectedSe(chunk[0]))
    ensures chunk[0] == SE ==> Feed(e, chunk) == Fail(TrimUnderflow(SbIac))
  {
    var s0 := Scan(e, 0, []);
    assert Span(s0, chunk, 0) == [];
    StepInSbIac(s0, chunk, 0);
  }

  // ---------------------------------------------------------------------
  // The option table

  /** Accept asks first and finalises second; a third accept is fatal. */
  lemma AcceptTwiceFinalises(opts: Options, option: byte)
    requires option !in opts
    ensures var first := AcceptOption(opts, option);
            && first.Ok? && first.value.1 == OptionRequested(option)
            && first.value.0[option] == OptEntry(Proposed, true)
            && var second := AcceptOption(first.value.0, option);
               && second.Ok? && second.value.1 == OptionAccepted(option)
               && second.value.0[option] == OptEntry(Done, true)
               && AcceptOption(second.value.0, option) == Fail(Renegotiation(option))
               && RejectOption(second.value.0, option) == Fail(Renegotiation(option))
  {
  }

  /** Reject is final at once: the option is done and off, and any later
      WILL, WONT, DO or DONT for it is fatal. */
  lemma RejectIsFinal(opts: Options, option: byte)
    requires option !in opts || opts[option].state != Done
    ensures var r := RejectOption(opts, option);
            && r.Ok? && r.value.1 == OptionRejected(option)
            && r.value.0[option] == OptEntry(Done, false)
            && AcceptOption(r.value.0, option) == Fail(Renegotiation(option))
            && RejectOption(r.value.0, option) == Fail(Renegotiation(option))
  {
  }

  /** Any number of feeds keep every option entry, and never touch one
      that is done. */
  lemma {:induction false} FeedAllKeepsDoneOptions(e: Engine, chunks: seq<seq<byte>>, option: byte)
    requires option in e.options && e.options[option].state == Done
    requires FeedAll(e, chunks).Ok?
    ensures option in FeedAll(e, chunks).value.0.options
    ensures FeedAll(e, chunks).value.0.options[option] == e.options[option]
  {
  }

  lemma DeliverStep(e: Engine, chunks: seq<seq<byte>>, first: (Engine, seq<Event>))
    requires |chunks| > 0 && Feed(e, chunks[0]) == Ok(first)
    ensures var d := Deliver(first.0, chunks[1..]);
            Deliver(e, chunks) == Delivery(d.engine, first.1 + d.events, d.fault)
  {
  }

  lemma DeliverJoin(e: Engine, chunks: seq<seq<byte>>, first: (Engine, seq<Event>), rest: seq<Event>, evs: seq<Event>, d: Delivery)
    requires |chunks| > 0 && Feed(e, chunks[0]) == Ok(first) && evs == first.1 + rest
    requires Deliver(first.0, chunks[1..]) == Delivery(d.engine, rest + d.events, d.fault)
    ensures Deliver(e, chunks) == Delivery(d.engine, evs + d.events, d.fault)
  {
    DeliverStep(e, chunks, first);
    EventsJoin(first.1, rest, d.events, Deliver(first.0, chunks[1..]).events);
  }

  lemma EventsJoin(a: seq<Event>, b: seq<Event>, c: seq<Event>, x: seq<Event>)
    requires x == b + c
    ensures a + x == (a + b) + c
  {
  }

  lemma FeedAllFirst(e: Engine, chunks: seq<seq<byte>>, k: nat, m: Engine, evs: seq<Event>) returns (first: (Engine, seq<Event>), rest: seq<Event>)
    requires 0 < k <= |chunks| && FeedAll(e, chunks[..k]) == Ok((m, evs))
    ensures Feed(e, chunks[0]) == Ok(first)
    ensures FeedAll(first.0, chunks[1..][..k - 1]) == Ok((m, rest)) && evs == first.1 + rest
  {
    var pre := chunks[..k];
    assert pre[0] == chunks[0] && pre[1..] == chunks[1..][..k - 1];
    first := Feed(e, pre[0]).value;
    rest := FeedAll(first.0, pre[1..]).value.1;
  }

  lemma DeliverRest(e: Engine, chunks: seq<seq<byte>>, k: nat, d: Delivery)
    requires 0 < k <= |chunks| && Deliver(e, chunks[k..]) == d
    ensures Deliver(e, chunks[1..][k - 1..]) == d
  {
    assert chunks[1..][k - 1..] == chunks[k..];
  }

  /** A series of deliveries splits after any prefix of them that
      completed: that prefix's events are delivered whatever follows. */
  lemma {:induction false} DeliverAfterCompleted(e: Engine, chunks: seq<seq<byte>>, k: nat, m: Engine, evs: seq<Event>)
    requires k <= |chunks| && FeedAll(e, chunks[..k]) == Ok((m, evs))
    ensures var d := Deliver(m, chunks[k..]);
            Deliver(e, chunks) == Delivery(d.engine, evs + d.events, d.fault)
    decreases k
  {
    var d := Deliver(m, chunks[k..]);
    if k == 0 {
      assert chunks[..0] == [] && chunks[0..] == chunks;
      assert [] + d.events == d.events;
    } else {
      var first, rest := FeedAllFirst(e, chunks, k, m, evs);
      DeliverAfterCompleted(first.0, chunks[1..], k - 1, m, rest);
      DeliverRest(m, chunks, k, d);
      DeliverJoin(e, chunks, first, rest, evs, d);
    }
  }

  /** A fault in delivery `k` stops the series there, and the events of the
      deliveries before it stay delivered. */
  lemma DeliverFaultKeepsEarlier(e: Engine, chunks: seq<seq<byte>>, k: nat, m: Engine, evs: seq<Event>, f: Fault)
    requires k < |chunks| && FeedAll(e, chunks[..k]) == Ok((m, evs))
    requires Feed(m, chunks[k]) == Fail(f)
    ensures Deliver(e, chunks) == Delivery(m, evs, Some(f))
    ensures FeedAll(e, chunks) == Fail(f)
  {
    DeliverAfterCompleted(e, chunks, k, m, evs);
    assert chunks[k..][0] == chunks[k];
    assert evs + [] == evs;
  }

  // ---------------------------------------------------------------------
  // Scenarios

  lemma ScenarioPlainData()
    ensures Feed(Initial(), [0x01, 0x02, 0x03]) == Ok((Initial(), [Data([0x01, 0x02, 0x03])]))
  {
    var c: seq<byte> := [0x01, 0x02, 0x03];
    assert CountIac(c) == 0;
    FeedPlainData(Initial(), c);
  }

  lemma ScenarioEscapedData()
    ensures Feed(Initial(), [0x01, 0xFF, 0xFF, 0x03]) == Ok((Initial(), [Data([0x01, 0xFF, 0x03])]))
  {
    var d: seq<byte> := [0x01, 0xFF, 0x03];
    assert Escape(d) == [0x01, 0xFF, 0xFF, 0x03] by {
      assert Escape(d[2..]) == [0x03];
      assert Escape(d[1..]) == [0xFF, 0xFF, 0x03];
    }
    SendThenReceive(Initial(), d);
  }

  lemma ScenarioWill()
    ensures Feed(Initial(), [0xFF, 0xFB, 0x46])
            == Ok((Engine(Read, New(), map[0x46 := OptEntry(Proposed, true)]), [OptionRequested(0x46)]))
  {
    FeedNegotiation(Initial(), WILL, 0x46);
  }

  lemma ScenarioSubnegotiation()
    ensures Feed(Initial(), [0xFF, 0xFA, 0x46, 0x01, 0x02, 0xFF, 0xF0])
            == Ok((Engine(SbIac, New(), map[]), [Subnegotiation([0x46, 0x01, 0x02])]))
  {
    var p: seq<byte> := [0x46, 0x01, 0x02];
    assert WellEscaped(p) by {
      assert p[1..][1..][1..] == [];
    }
    FeedSubnegotiation(Initial(), p);
    assert [IAC, SB] + p + [IAC, SE] == [0xFF, 0xFA, 0x46, 0x01, 0x02, 0xFF, 0xF0];
  }

  /** IAC at the end of one chunk and NOP at the start of the next: the
      data before the IAC is withheld, then the NOP aborts the feed. */
  lemma ScenarioSplitNop()
    ensures Feed(Initial(), [0x01, 0x02, 0xFF]).Ok?
    ensures Feed(Initial(), [0x01, 0x02, 0xFF]).value.1 == []
    ensures Feed(Feed(Initial(), [0x01, 0x02, 0xFF]).value.0, [0xF1, 0x03]) == Fail(InvalidCommand(0xF1))
  {
    var c: seq<byte> := [0x01, 0x02, 0xFF];
    var s0 := Scan(Initial(), 0, []);
    assert c[0..2] == [0x01, 0x02];
    assert WellEscaped(c[0..2]) by {
      assert c[0..2][1..][1..] == [];
    }
    RunSkipsEscaped(s0, c, 0, 2);
    var s1 := s0.(engine := Initial().(state := Iac));
    assert Step(s0, c, 2) == Ok(s1);
    assert Run(s0, c, 0) == Ok(s1);
    var e1 := Feed(Initial(), c).value.0;
    assert e1.state == Iac;
    IacThenOtherIsFatal(e1, [0xF1, 0x03]);
  }

  /** Data in one delivery, then IAC and NOP in the next: the data event
      has been delivered before the assertion at the NOP stops the series. */
  lemma ScenarioDataThenNop(e: Engine)
    requires e.state == Read && Length(e.buffer) == 0
    ensures var d := Deliver(e, [[0x01, 0x02, 0x03], [0xFF, 0xF1]]);
            d.events == [Data([0x01, 0x02, 0x03])] && d.fault == Some(InvalidCommand(0xF1))
  {
    var a: seq<byte> := [0x01, 0x02, 0x03];
    var b: seq<byte> := [0xFF, 0xF1];
    assert CountIac(a) == 0;
    FeedPlainData(e, a);
    var m := e.(buffer := New());
    FeedAllSingle(e, a);
    var chunks := [a, b];
    assert chunks[..1] == [a] && chunks[1] == b;
    var s0 := Scan(m, 0, []);
    StepInRead(s0, b, 0);
    RunStep(s0, b, 0);
    assert Feed(m, b) == Fail(InvalidCommand(0xF1));
    DeliverFaultKeepsEarlier(e, chunks, 1, m, [Data(a)], InvalidCommand(0xF1));
  }
}
