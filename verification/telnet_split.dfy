/** Chunk boundaries: the socket may cut the byte stream anywhere, and the
    inbound automaton keeps what it needs across deliveries. A byte's
    effect depends only on the state, the option table and the span (the
    pending bytes plus the part of the chunk read since `startIndex`), not
    on how that span is split between the `BufferList` and the chunk. So
    a delivery that ends outside `Read` followed by another gives what the
    two would give as one delivery. */
module TelnetSplit {
  import opened Bytes
  import opened Outcomes
  import opened TelnetUtil
  import opened Buffers
  import opened Telnet
  import opened TelnetProofs

  /** What the automaton can observe about a scan at position `i`. */
  datatype View = View(state: State, options: Options, span: seq<byte>)

  function ViewOf(s: Scan, chunk: seq<byte>, i: nat): View
    requires s.start <= i <= |chunk|
  {
    View(s.engine.state, s.engine.options, Span(s, chunk, i))
  }

  /** Reference definition of one byte of `_processData` on views: the new
      view and the events emitted. `idle` says that nothing is pending in
      the `BufferList`, which only the WILL/WONT/DO/DONT states assert. */
  function ViewStep(v: View, idle: bool, val: byte): Result<(View, seq<Event>), Fault>
  {
    match v.state
    case Read => Ok((v.(state := if val == IAC then Iac else Read, span := v.span + [val]), []))
    case Will | Do =>
      if !idle then Fail(BufferNotEmpty)
      else
        var accepted :- AcceptOption(v.options, val);
        Ok((View(Read, accepted.0, []), [accepted.1]))
    case Wont | Dont =>
      if !idle then Fail(BufferNotEmpty)
      else
        var rejected :- RejectOption(v.options, val);
        Ok((View(Read, rejected.0, []), [rejected.1]))
    case Iac =>
      if val == IAC then Ok((v.(state := Read, span := v.span + [val]), []))
      else if !IsCommand(val) then Fail(InvalidCommand(val))
      else if |v.span| == 0 then Fail(TrimUnderflow(Iac))
      else
        var before := v.span[..|v.span| - 1];
        Ok((View(CommandState(val), v.options, []), if |before| > 0 then [Data(Collapse(before))] else []))
    case Sb => Ok((v.(state := if val == IAC then SbIac else Sb, span := v.span + [val]), []))
    case SbIac =>
      if val == IAC then Ok((v.(state := Sb, span := v.span + [val]), []))
      else if val != SE then Fail(ExpectedSe(val))
      else if |v.span| == 0 then Fail(TrimUnderflow(SbIac))
      else Ok((View(SbIac, v.options, []), [Subnegotiation(v.span[..|v.span| - 1])]))
  }

  /** `Step` agrees with `ViewStep`: the same fault, or the same next view
      and the same events appended. */
  ghost predicate StepMatchesView(s: Scan, chunk: seq<byte>, i: nat)
    requires s.start <= i < |chunk|
  {
    var a := ViewStep(ViewOf(s, chunk, i), Length(s.engine.buffer) == 0, chunk[i]);
    && (Step(s, chunk, i).Fail? <==> a.Fail?)
    && (a.Fail? ==> Step(s, chunk, i).error == a.error)
    && (a.Ok? ==> ViewOf(Step(s, chunk, i).value, chunk, i + 1) == a.value.0
                  && Step(s, chunk, i).value.events == s.events + a.value.1)
  }

  lemma StepByView(s: Scan, chunk: seq<byte>, i: nat)
    requires s.start <= i < |chunk|
    ensures StepMatchesView(s, chunk, i)
  {
    match s.engine.state
    case Read => StepByViewKeeping(s, chunk, i);
    case Sb => StepByViewKeeping(s, chunk, i);
    case Will | Wont | Do | Dont => StepByViewOption(s, chunk, i);
    case Iac => StepByViewIac(s, chunk, i);
    case SbIac => StepByViewSbIac(s, chunk, i);
  }

  lemma SpanGrows(s: Scan, chunk: seq<byte>, i: nat)
    requires s.start <= i < |chunk|
    ensures Span(s, chunk, i + 1) == Span(s, chunk, i) + [chunk[i]]
  {
    assert chunk[s.start..i + 1] == chunk[s.start..i] + [chunk[i]];
  }

  lemma StepByViewKeeping(s: Scan, chunk: seq<byte>, i: nat)
    requires s.start <= i < |chunk| && (s.engine.state == Read || s.engine.state == Sb)
    ensures StepMatchesView(s, chunk, i)
  {
    SpanGrows(s, chunk, i);
    assert s.events + [] == s.events;
    if s.engine.state == Read {
      StepInRead(s, chunk, i);
    } else {
      StepInSb(s, chunk, i);
    }
  }

  lemma StepByViewOption(s: Scan, chunk: seq<byte>, i: nat)
    requires s.start <= i < |chunk| && s.engine.state in {Will, Wont, Do, Dont}
    ensures StepMatchesView(s, chunk, i)
  {
    if Length(s.engine.buffer) == 0 {
      StepOption(s, chunk, i);
    }
  }

  lemma StepByViewIac(s: Scan, chunk: seq<byte>, i: nat)
    requires s.start <= i < |chunk| && s.engine.state == Iac
    ensures StepMatchesView(s, chunk, i)
  {
    if chunk[i] == IAC {
      StepByViewEscapedIac(s, chunk, i);
    } else if IsCommand(chunk[i]) {
      if |Span(s, chunk, i)| > 0 {
        StepByViewCommand(s, chunk, i);
      } else {
        StepByViewCommandUnderflow(s, chunk, i);
      }
    }
  }

  lemma StepByViewEscapedIac(s: Scan, chunk: seq<byte>, i: nat)
    requires s.start <= i < |chunk| && s.engine.state == Iac && chunk[i] == IAC
    ensures StepMatchesView(s, chunk, i)
  {
    SpanGrows(s, chunk, i);
    assert s.events + [] == s.events;
    StepEscapedIac(s, chunk, i);
  }

  lemma StepByViewCommand(s: Scan, chunk: seq<byte>, i: nat)
    requires s.start <= i < |chunk| && s.engine.state == Iac && IsCommand(chunk[i])
    requires |Span(s, chunk, i)| > 0
    ensures StepMatchesView(s, chunk, i)
  {
    StepCommand(s, chunk, i);
  }

  lemma StepByViewCommandUnderflow(s: Scan, chunk: seq<byte>, i: nat)
    requires s.start <= i < |chunk| && s.engine.state == Iac && IsCommand(chunk[i])
    requires |Span(s, chunk, i)| == 0
    ensures StepMatchesView(s, chunk, i)
  {
    assert Length(Push(s.engine.buffer, chunk[s.start..i + 1])) == 1;
  }

  lemma StepByViewSbIac(s: Scan, chunk: seq<byte>, i: nat)
    requires s.start <= i < |chunk| && s.engine.state == SbIac
    ensures StepMatchesView(s, chunk, i)
  {
    StepInSbIac(s, chunk, i);
    if chunk[i] == IAC {
      SpanGrows(s, chunk, i);
      assert s.events + [] == s.events;
    }
  }

  /** Outside the negotiation states the buffer's emptiness is not looked at. */
  lemma ViewStepIgnoresIdle(v: View, val: byte)
    requires v.state !in {Will, Wont, Do, Dont}
    ensures ViewStep(v, true, val) == ViewStep(v, false, val)
  {
  }

  /** Two scans, over two chunks, that the automaton cannot tell apart: the
      same view, the same bytes still to come, nothing pending in a
      negotiation state, and the second's events are the first's after
      `earlier`. */
  ghost predicate Agree(s1: Scan, c1: seq<byte>, i1: nat, s2: Scan, c2: seq<byte>, i2: nat, earlier: seq<Event>)
  {
    && s1.start <= i1 <= |c1| && s2.start <= i2 <= |c2|
    && c1[i1..] == c2[i2..]
    && ViewOf(s1, c1, i1) == ViewOf(s2, c2, i2)
    && s2.events == earlier + s1.events
    && (s1.engine.state in {Will, Wont, Do, Dont} ==>
          Length(s1.engine.buffer) == 0 && Length(s2.engine.buffer) == 0)
  }

  lemma StepAgree(s1: Scan, c1: seq<byte>, i1: nat, s2: Scan, c2: seq<byte>, i2: nat, earlier: seq<Event>)
    requires Agree(s1, c1, i1, s2, c2, i2, earlier) && i1 < |c1|
    ensures i2 < |c2|
    ensures Step(s1, c1, i1).Ok? <==> Step(s2, c2, i2).Ok?
    ensures Step(s1, c1, i1).Fail? ==> Step(s1, c1, i1).error == Step(s2, c2, i2).error
    ensures Step(s1, c1, i1).Ok? ==>
              Agree(Step(s1, c1, i1).value, c1, i1 + 1, Step(s2, c2, i2).value, c2, i2 + 1, earlier)
  {
    assert c1[i1] == c1[i1..][0] == c2[i2..][0] == c2[i2];
    assert c1[i1 + 1..] == c1[i1..][1..] == c2[i2..][1..] == c2[i2 + 1..];
    var v := ViewOf(s1, c1, i1);
    if v.state !in {Will, Wont, Do, Dont} {
      ViewStepIgnoresIdle(v, c1[i1]);
    }
    StepByView(s1, c1, i1);
    StepByView(s2, c2, i2);
    var a := ViewStep(v, Length(s1.engine.buffer) == 0, c1[i1]);
    if a.Ok? {
      EventsAfter(earlier, s1.events, s2.events, a.value.1);
    }
  }

  lemma EventsAfter(earlier: seq<Event>, x: seq<Event>, y: seq<Event>, more: seq<Event>)
    requires y == earlier + x
    ensures y + more == earlier + (x + more)
  {
  }

  lemma {:induction false} RunAgree(s1: Scan, c1: seq<byte>, i1: nat, s2: Scan, c2: seq<byte>, i2: nat, earlier: seq<Event>)
    requires Agree(s1, c1, i1, s2, c2, i2, earlier)
    ensures Run(s1, c1, i1).Ok? <==> Run(s2, c2, i2).Ok?
    ensures Run(s1, c1, i1).Fail? ==> Run(s1, c1, i1).error == Run(s2, c2, i2).error
    ensures Run(s1, c1, i1).Ok? ==>
              Agree(Run(s1, c1, i1).value, c1, |c1|, Run(s2, c2, i2).value, c2, |c2|, earlier)
    decreases |c1| - i1
  {
    assert |c1| - i1 == |c1[i1..]| == |c2[i2..]| == |c2| - i2;
    if i1 < |c1| {
      StepAgree(s1, c1, i1, s2, c2, i2, earlier);
      if Step(s1, c1, i1).Ok? {
        RunAgree(Step(s1, c1, i1).value, c1, i1 + 1, Step(s2, c2, i2).value, c2, i2 + 1, earlier);
      }
    }
  }

  /** Scans that agree at the end of their chunks leave engines with the
      same state, options and pending bytes, and the same events. */
  lemma FinishAgree(s1: Scan, c1: seq<byte>, s2: Scan, c2: seq<byte>, earlier: seq<Event>)
    requires Agree(s1, c1, |c1|, s2, c2, |c2|, earlier)
    ensures Finish(s2, c2).0.state == Finish(s1, c1).0.state
    ensures Finish(s2, c2).0.options == Finish(s1, c1).0.options
    ensures Contents(Finish(s2, c2).0.buffer) == Contents(Finish(s1, c1).0.buffer)
    ensures Finish(s2, c2).1 == earlier + Finish(s1, c1).1
  {
    var span := Span(s1, c1, |c1|);
    assert Span(s2, c2, |c2|) == span;
    if s1.engine.state == Read {
      var tail: seq<Event> := if |span| > 0 then [Data(Collapse(span))] else [];
      EventsAfter(earlier, s1.events, s2.events, tail);
      assert Contents(Finish(s1, c1).0.buffer) == [] == Contents(Finish(s2, c2).0.buffer);
    }
  }

  /** Bytes of `a` are read the same whether or not `b` follows them. */
  lemma StepPrefix(s: Scan, a: seq<byte>, b: seq<byte>, i: nat)
    requires s.start <= i < |a|
    ensures Step(s, a + b, i) == Step(s, a, i)
  {
    assert (a + b)[i] == a[i];
    assert (a + b)[s.start..i + 1] == a[s.start..i + 1];
    match s.engine.state
    case Read =>
    case Will | Wont | Do | Dont =>
    case Iac =>
    case Sb =>
    case SbIac =>
  }

  lemma {:induction false} RunPrefix(s: Scan, a: seq<byte>, b: seq<byte>, i: nat, t: Scan)
    requires s.start <= i <= |a| && Run(s, a, i) == Ok(t)
    ensures Run(s, a + b, i) == Run(t, a + b, |a|)
    decreases |a| - i
  {
    if i < |a| {
      var next := RunFirstStep(s, a, i);
      RunStepPrefix(s, a, b, i, next);
      RunPrefix(next, a, b, i + 1, t);
    }
  }

  lemma RunStepPrefix(s: Scan, a: seq<byte>, b: seq<byte>, i: nat, next: Scan)
    requires s.start <= i < |a| && Step(s, a, i) == Ok(next)
    ensures Run(s, a + b, i) == Run(next, a + b, i + 1)
  {
    StepPrefix(s, a, b, i);
    RunStep(s, a + b, i);
  }

  /** A loop that succeeds took its first step. */
  lemma RunFirstStep(s: Scan, chunk: seq<byte>, i: nat) returns (next: Scan)
    requires s.start <= i < |chunk| && Run(s, chunk, i).Ok?
    ensures Step(s, chunk, i) == Ok(next) && next.start <= i + 1
    ensures Run(s, chunk, i) == Run(next, chunk, i + 1)
  {
    next := Step(s, chunk, i).value;
  }

  /** A loop that ends in a negotiation state has just read the command:
      nothing is pending and `startIndex` is at the end of the chunk. */
  lemma {:induction false} RunEndsInCommand(s: Scan, chunk: seq<byte>, i: nat)
    requires s.start <= i < |chunk| && Run(s, chunk, i).Ok?
    requires Run(s, chunk, i).value.engine.state in {Will, Wont, Do, Dont}
    ensures Length(Run(s, chunk, i).value.engine.buffer) == 0
    ensures Run(s, chunk, i).value.start == |chunk|
    decreases |chunk| - i
  {
    if i + 1 < |chunk| {
      RunEndsInCommand(Step(s, chunk, i).value, chunk, i + 1);
    }
  }

  /** Two deliveries in a row, unfolded. */
  lemma FeedPair(e: Engine, a: seq<byte>, b: seq<byte>)
    requires Feed(e, a).Ok?
    ensures var first := Feed(e, a).value;
            var second := Feed(first.0, b);
            FeedAll(e, [a, b]) == if second.Fail? then Fail(second.error) else Ok((second.value.0, first.1 + second.value.1))
  {
    FeedAllStep(e, [a, b]);
    assert [a, b][1..] == [b];
    FeedAllSingle(Feed(e, a).value.0, b);
  }

  /** The joined delivery, resumed at the end of `a`. */
  lemma FeedJoined(e: Engine, a: seq<byte>, b: seq<byte>)
    requires |b| > 0 && Run(Scan(e, 0, []), a, 0).Ok?
    ensures var t := Run(Scan(e, 0, []), a, 0).value;
            var r := Run(t, a + b, |a|);
            Feed(e, a + b) == if r.Fail? then Fail(r.error) else Ok(Finish(r.value, a + b))
  {
    RunPrefix(Scan(e, 0, []), a, b, 0, Run(Scan(e, 0, []), a, 0).value);
  }

  /** A delivery that leaves the engine outside `Read` withholds everything
      it has not reported; whatever delivery follows, the pair behaves as
      the two joined into one: the same fault, or the same events, state,
      options and pending bytes. */
  lemma FeedSplit(e: Engine, a: seq<byte>, b: seq<byte>)
    requires |b| > 0 && Feed(e, a).Ok? && Feed(e, a).value.0.state != Read
    ensures FeedAll(e, [a, b]).Ok? <==> Feed(e, a + b).Ok?
    ensures FeedAll(e, [a, b]).Fail? ==> FeedAll(e, [a, b]).error == Feed(e, a + b).error
    ensures FeedAll(e, [a, b]).Ok? ==>
              && FeedAll(e, [a, b]).value.1 == Feed(e, a + b).value.1
              && FeedAll(e, [a, b]).value.0.state == Feed(e, a + b).value.0.state
              && FeedAll(e, [a, b]).value.0.options == Feed(e, a + b).value.0.options
              && Contents(FeedAll(e, [a, b]).value.0.buffer) == Contents(Feed(e, a + b).value.0.buffer)
  {
    var s0 := Scan(e, 0, []);
    var t := Run(s0, a, 0).value;
    FeedFromRun(e, a, t);
    var e1 := Finish(t, a).0;
    if t.engine.state in {Will, Wont, Do, Dont} {
      RunEndsInCommand(s0, a, 0);
    }
    var u0 := Scan(e1, 0, []);
    assert Agree(u0, b, 0, t, a + b, |a|, t.events) by {
      assert b[0..] == (a + b)[|a|..];
      assert (a + b)[t.start..|a|] == a[t.start..|a|];
    }
    RunAgree(u0, b, 0, t, a + b, |a|, t.events);
    FeedPair(e, a, b);
    FeedJoined(e, a, b);
    var r1 := Run(u0, b, 0);
    if r1.Ok? {
      FeedFromRun(e1, b, r1.value);
      FinishAgree(r1.value, b, Run(t, a + b, |a|).value, a + b, t.events);
    }
  }

  /** What a listener and a later delivery can observe of an outcome: the
      fault, or the state, the option table, the pending bytes and the
      events. It forgets only how the pending bytes are cut into chunks. */
  function Observed(r: Result<(Engine, seq<Event>), Fault>): Result<(State, Options, seq<byte>, seq<Event>), Fault>
  {
    match r
    case Fail(f) => Fail(f)
    case Ok(out) => Ok((out.0.state, out.0.options, Contents(out.0.buffer), out.1))
  }

  /** An outcome preceded by the events of an earlier delivery. */
  function After(first: seq<Event>, r: Result<(Engine, seq<Event>), Fault>): Result<(Engine, seq<Event>), Fault>
  {
    if r.Fail? then Fail(r.error) else Ok((r.value.0, first + r.value.1))
  }

  lemma ObservedAfter(first: seq<Event>, r1: Result<(Engine, seq<Event>), Fault>, r2: Result<(Engine, seq<Event>), Fault>)
    requires Observed(r1) == Observed(r2)
    ensures Observed(After(first, r1)) == Observed(After(first, r2))
  {
  }

  lemma FeedSplitObserved(e: Engine, a: seq<byte>, b: seq<byte>)
    requires |b| > 0 && Feed(e, a).Ok? && Feed(e, a).value.0.state != Read
    ensures Observed(FeedAll(e, [a, b])) == Observed(Feed(e, a + b))
  {
    FeedSplit(e, a, b);
  }

  /** The deliveries after the first, fed to the engine the first one left,
      end where the whole series ends. */
  lemma FeedAllTail(e: Engine, chunks: seq<seq<byte>>, k: nat, first: (Engine, seq<Event>))
    requires 0 < k < |chunks| && Feed(e, chunks[0]) == Ok(first)
    requires FeedAll(e, chunks[..k + 1]).Ok?
    ensures FeedAll(first.0, chunks[1..][..k]).Ok?
    ensures FeedAll(first.0, chunks[1..][..k]).value.0 == FeedAll(e, chunks[..k + 1]).value.0
  {
    var pre := chunks[..k + 1];
    assert pre[0] == chunks[0] && pre[1..] == chunks[1..][..k];
    FeedAllStep(e, pre);
  }

  /** A series of deliveries, each but the last leaving the engine outside
      `Read`, behaves as the same bytes in one delivery: the same fault, or
      the same events, state, options and pending bytes. So a control
      sequence may be cut at any number of places. */
  lemma {:induction false} FeedAllSplitAny(e: Engine, chunks: seq<seq<byte>>)
    requires |chunks| > 0
    requires forall k :: 0 <= k < |chunks| ==> |chunks[k]| > 0
    requires forall k :: 0 < k < |chunks| ==> FeedAll(e, chunks[..k]).Ok? && FeedAll(e, chunks[..k]).value.0.state != Read
    ensures Observed(FeedAll(e, chunks)) == Observed(Feed(e, Flatten(chunks)))
    decreases |chunks|
  {
    var c := chunks[0];
    var rest := chunks[1..];
    assert Flatten(chunks) == c + Flatten(rest);
    if |rest| == 0 {
      assert chunks == [c] && Flatten(rest) == [] && c + [] == c;
      FeedAllSingle(e, c);
    } else {
      assert chunks[..1] == [c];
      FeedAllSingle(e, c);
      var first := Feed(e, c).value;
      forall k | 0 < k < |rest|
        ensures FeedAll(first.0, rest[..k]).Ok? && FeedAll(first.0, rest[..k]).value.0.state != Read
      {
        FeedAllTail(e, chunks, k, first);
      }
      forall k | 0 <= k < |rest|
        ensures |rest[k]| > 0
      {
        assert rest[k] == chunks[k + 1];
      }
      FeedAllSplitAny(first.0, rest);
      var f := Flatten(rest);
      assert |f| > 0 by {
        assert f == rest[0] + Flatten(rest[1..]);
      }
      FeedSplitObserved(e, c, f);
      FeedPair(e, c, f);
      FeedAllStep(e, chunks);
      ObservedAfter(first.1, FeedAll(first.0, rest), Feed(first.0, f));
    }
  }

  /** A prefix of a well-escaped sequence is well-escaped, or it is cut
      between the two bytes of an IAC IAC pair. */
  lemma {:induction false} WellEscapedPrefix(s: seq<byte>, n: nat)
    requires WellEscaped(s) && n <= |s|
    ensures WellEscaped(s[..n]) || (0 < n && s[n - 1] == IAC && WellEscaped(s[..n - 1]))
  {
    if n > 0 {
      if s[0] != IAC {
        WellEscapedPrefix(s[1..], n - 1);
        assert s[..n][1..] == s[1..][..n - 1];
        if !WellEscaped(s[1..][..n - 1]) {
          assert s[..n - 1][1..] == s[1..][..n - 2];
        }
      } else if n == 1 {
        assert s[..0] == [];
      } else {
        WellEscapedPrefix(s[2..], n - 2);
        assert s[..n][2..] == s[2..][..n - 2];
        if !WellEscaped(s[2..][..n - 2]) {
          assert s[..n - 1][2..] == s[2..][..n - 3];
        }
      }
    }
  }

  /** IAC SB and the start of a sub-negotiation, possibly cut after an IAC:
      the loop reports nothing and stays inside the frame. */
  lemma RunOpenFrame(e: Engine, c: seq<byte>) returns (u: Scan)
    requires e.state == Read && Length(e.buffer) == 0
    requires |c| >= 2 && c[0] == IAC && c[1] == SB
    requires WellEscaped(c[2..]) || (|c| > 2 && c[|c| - 1] == IAC && WellEscaped(c[2..|c| - 1]))
    ensures Run(Scan(e, 0, []), c, 0) == Ok(u)
    ensures u.events == [] && u.engine.state in {Sb, SbIac}
  {
    var t := RunIacSb(Scan(e, 0, []), c);
    u := RunInsideFrame(t, c);
  }

  /** Inside the frame, from the payload on. */
  lemma RunInsideFrame(t: Scan, c: seq<byte>) returns (u: Scan)
    requires t.start <= 2 <= |c| && t.engine.state == Sb
    requires WellEscaped(c[2..]) || (|c| > 2 && c[|c| - 1] == IAC && WellEscaped(c[2..|c| - 1]))
    ensures Run(t, c, 2) == Ok(u)
    ensures u.events == t.events && u.engine.state in {Sb, SbIac}
  {
    if WellEscaped(c[2..]) {
      assert c[2..|c|] == c[2..];
      RunSkipsEscaped(t, c, 2, |c|);
      RunEnd(t, c);
      u := t;
    } else {
      RunSkipsEscaped(t, c, 2, |c| - 1);
      u := RunSbIacLast(t, c);
    }
  }

  /** A final IAC inside a sub-negotiation. */
  lemma RunSbIacLast(t: Scan, c: seq<byte>) returns (u: Scan)
    requires t.start < |c| && c[|c| - 1] == IAC && t.engine.state == Sb
    ensures Run(t, c, |c| - 1) == Ok(u)
    ensures u.events == t.events && u.engine.state == SbIac
  {
    StepInSb(t, c, |c| - 1);
    u := t.(engine := t.engine.(state := SbIac));
    RunStep(t, c, |c| - 1);
    RunEnd(u, c);
  }

  lemma FeedOpenFrame(e: Engine, c: seq<byte>)
    requires e.state == Read && Length(e.buffer) == 0
    requires |c| >= 2 && c[0] == IAC && c[1] == SB
    requires WellEscaped(c[2..]) || (|c| > 2 && c[|c| - 1] == IAC && WellEscaped(c[2..|c| - 1]))
    ensures Feed(e, c).Ok? && Feed(e, c).value.1 == []
    ensures Feed(e, c).value.0.state in {Sb, SbIac}
  {
    var u := RunOpenFrame(e, c);
    FeedFromRun(e, c, u);
  }

  /** The frame cut anywhere before its last byte leaves the engine inside
      it, without an event. */
  lemma FeedFramePrefix(e: Engine, payload: seq<byte>, k: nat)
    requires e.state == Read && Length(e.buffer) == 0 && WellEscaped(payload)
    requires 0 < k < |payload| + 4
    ensures var frame := [IAC, SB] + payload + [IAC, SE];
            && Feed(e, frame[..k]).Ok? && Feed(e, frame[..k]).value.1 == []
            && Feed(e, frame[..k]).value.0.state != Read
  {
    var frame := [IAC, SB] + payload + [IAC, SE];
    if k == 1 {
      assert frame[..k] == [IAC];
      FeedLoneIac(e);
    } else {
      FeedFrameCutInside(e, payload, k);
    }
  }

  lemma FeedFrameCutInside(e: Engine, payload: seq<byte>, k: nat)
    requires e.state == Read && Length(e.buffer) == 0 && WellEscaped(payload)
    requires 2 <= k < |payload| + 4
    ensures var c := ([IAC, SB] + payload + [IAC, SE])[..k];
            && Feed(e, c).Ok? && Feed(e, c).value.1 == [] && Feed(e, c).value.0.state != Read
  {
    FramePrefixOpen(payload, k);
    FeedOpenFrame(e, ([IAC, SB] + payload + [IAC, SE])[..k]);
  }

  /** The frame cut after IAC SB holds a cut of the well-escaped payload,
      possibly followed by the closing IAC. */
  lemma FramePrefixOpen(payload: seq<byte>, k: nat)
    requires WellEscaped(payload) && 2 <= k < |payload| + 4
    ensures var c := ([IAC, SB] + payload + [IAC, SE])[..k];
            && |c| >= 2 && c[0] == IAC && c[1] == SB
            && (WellEscaped(c[2..]) || (|c| > 2 && c[|c| - 1] == IAC && WellEscaped(c[2..|c| - 1])))
  {
    var frame := [IAC, SB] + payload + [IAC, SE];
    var c := frame[..k];
    assert frame[2..|payload| + 2] == payload;
    assert frame[|payload| + 2] == IAC;
    if k < |payload| + 3 {
      assert c[2..] == frame[2..k] == frame[2..|payload| + 2][..k - 2];
      WellEscapedPrefix(payload, k - 2);
      if !WellEscaped(c[2..]) {
        assert c[2..|c| - 1] == frame[2..k - 1] == frame[2..|payload| + 2][..k - 3];
      }
    } else {
      assert c[2..|c| - 1] == frame[2..|payload| + 2];
    }
  }

  /** A sub-negotiation IAC SB payload IAC SE split into two deliveries at
      any byte is reported exactly as in one delivery. */
  lemma SubnegotiationSplit(e: Engine, payload: seq<byte>, k: nat)
    requires e.state == Read && Length(e.buffer) == 0 && WellEscaped(payload)
    requires 0 < k < |payload| + 4
    ensures var frame := [IAC, SB] + payload + [IAC, SE];
            var r := FeedAll(e, [frame[..k], frame[k..]]);
            && r.Ok? && r.value.1 == [Subnegotiation(payload)]
            && r.value.0.state == SbIac && r.value.0.options == e.options
            && Length(r.value.0.buffer) == 0
  {
    var frame := [IAC, SB] + payload + [IAC, SE];
    FeedFramePrefix(e, payload, k);
    assert frame[..k] + frame[k..] == frame;
    FeedSplit(e, frame[..k], frame[k..]);
    FeedSubnegotiation(e, payload);
  }

  /** Every proper prefix of a series of deliveries that together carry one
      sub-negotiation frame leaves the engine outside `Read`. */
  lemma {:induction false} FramePrefixesOpen(e: Engine, payload: seq<byte>, chunks: seq<seq<byte>>, k: nat)
    requires e.state == Read && Length(e.buffer) == 0 && WellEscaped(payload)
    requires forall j :: 0 <= j < |chunks| ==> |chunks[j]| > 0
    requires Flatten(chunks) == [IAC, SB] + payload + [IAC, SE]
    requires 0 < k < |chunks|
    ensures FeedAll(e, chunks[..k]).Ok? && FeedAll(e, chunks[..k]).value.0.state != Read
    decreases k
  {
    var frame := [IAC, SB] + payload + [IAC, SE];
    var pre := chunks[..k];
    forall j | 0 < j < k
      ensures FeedAll(e, pre[..j]).Ok? && FeedAll(e, pre[..j]).value.0.state != Read
    {
      assert pre[..j] == chunks[..j];
      FramePrefixesOpen(e, payload, chunks, j);
    }
    FeedAllSplitAny(e, pre);
    assert chunks == pre + chunks[k..];
    FlattenConcat(pre, chunks[k..]);
    var n := |Flatten(pre)|;
    assert n > 0 by {
      assert Flatten(pre) == pre[0] + Flatten(pre[1..]);
    }
    assert n < |frame| by {
      var post := chunks[k..];
      assert Flatten(post) == post[0] + Flatten(post[1..]);
    }
    assert frame[..n] == Flatten(pre);
    FeedFramePrefix(e, payload, n);
  }

  /** A sub-negotiation cut into any number of non-empty deliveries is
      reported exactly as in one delivery: one event with the payload, the
      engine left in `SbIac` with the same options and nothing pending. */
  lemma SubnegotiationSplitAny(e: Engine, payload: seq<byte>, chunks: seq<seq<byte>>)
    requires e.state == Read && Length(e.buffer) == 0 && WellEscaped(payload)
    requires forall j :: 0 <= j < |chunks| ==> |chunks[j]| > 0
    requires Flatten(chunks) == [IAC, SB] + payload + [IAC, SE]
    ensures var r := FeedAll(e, chunks);
            && r.Ok? && r.value.1 == [Subnegotiation(payload)]
            && r.value.0.state == SbIac && r.value.0.options == e.options
            && Length(r.value.0.buffer) == 0
  {
    assert |chunks| > 0;
    forall k | 0 < k < |chunks|
      ensures FeedAll(e, chunks[..k]).Ok? && FeedAll(e, chunks[..k]).value.0.state != Read
    {
      FramePrefixesOpen(e, payload, chunks, k);
    }
    FeedAllSplitAny(e, chunks);
    FeedSubnegotiation(e, payload);
  }

  /** Data, IAC, a negotiation command and its option, split into two
      deliveries after the IAC (`k == 1`) or after the command (`k == 2`):
      the data is still delivered first and the option event after it,
      exactly as in one delivery. */
  lemma DataThenSplitNegotiation(e: Engine, d: seq<byte>, cmd: byte, option: byte, k: nat)
    requires e.state == Read && Length(e.buffer) == 0
    requires WellEscaped(d) && IsNegotiation(cmd) && (k == 1 || k == 2)
    ensures var c := d + [IAC, cmd, option];
            var r := FeedAll(e, [c[..|d| + k], c[|d| + k..]]);
            var n := Negotiate(e.options, cmd, option);
            var flushed := if |d| > 0 then [Data(Collapse(d))] else [];
            && (n.Fail? ==> r == Fail(n.error))
            && (n.Ok? ==> r.Ok? && r.value.1 == flushed + [n.value.1]
                          && r.value.0.state == Read && r.value.0.options == n.value.0
                          && Length(r.value.0.buffer) == 0)
  {
    var c := d + [IAC, cmd, option];
    var a := c[..|d| + k];
    if k == 1 {
      assert a == d + [IAC];
      FeedDataThenIac(e, d);
    } else {
      assert a == d + [IAC, cmd];
      FeedDataThenCommand(e, d, cmd);
    }
    assert a + c[|d| + k..] == c;
    FeedSplit(e, a, c[|d| + k..]);
    FeedDataThenNegotiation(e, d, cmd, option);
  }

  /** Data then a lone IAC: withheld, the engine waits in `Iac`. */
  lemma FeedDataThenIac(e: Engine, d: seq<byte>)
    requires e.state == Read && Length(e.buffer) == 0 && WellEscaped(d)
    ensures Feed(e, d + [IAC]).Ok? && Feed(e, d + [IAC]).value.0.state == Iac
  {
    var a := d + [IAC];
    var s0 := Scan(e, 0, []);
    assert a[0..|d|] == d;
    RunSkipsEscaped(s0, a, 0, |d|);
    StepInRead(s0, a, |d|);
    var u := s0.(engine := e.(state := Iac));
    RunStep(s0, a, |d|);
    RunEnd(u, a);
    FeedFromRun(e, a, u);
  }

  /** Data, IAC and a command: the engine waits for the option byte. */
  lemma FeedDataThenCommand(e: Engine, d: seq<byte>, cmd: byte)
    requires e.state == Read && Length(e.buffer) == 0 && WellEscaped(d) && IsNegotiation(cmd)
    ensures Feed(e, d + [IAC, cmd]).Ok? && Feed(e, d + [IAC, cmd]).value.0.state == CommandState(cmd)
  {
    var a := d + [IAC, cmd];
    assert a[..|d|] == d;
    var t := RunDataThenCommand(e, a, d);
    RunEnd(t, a);
    FeedFromRun(e, a, t);
  }

  /** 01 02 IAC in one delivery and WILL 0x46 in the next, to an idle
      engine that knows no options (a new one, for instance): the data is
      delivered, then the option request, and the engine is idle again. */
  lemma ScenarioSplitWill(e: Engine)
    requires e.state == Read && Length(e.buffer) == 0 && e.options == map[]
    ensures FeedAll(e, [[0x01, 0x02, 0xFF], [0xFB, 0x46]]).Ok?
    ensures FeedAll(e, [[0x01, 0x02, 0xFF], [0xFB, 0x46]]).value.1
            == [Data([0x01, 0x02]), OptionRequested(0x46)]
    ensures FeedAll(e, [[0x01, 0x02, 0xFF], [0xFB, 0x46]]).value.0.options
            == map[0x46 := OptEntry(Proposed, true)]
  {
    var d: seq<byte> := [0x01, 0x02];
    PlainPair();
    DataThenSplitWill(e, d, 0x46);
    assert d + [IAC] == [0x01, 0x02, 0xFF];
    assert [WILL, 0x46] == [0xFB, 0x46];
  }

  /** Data and IAC, then WILL and a new option in the next delivery. */
  lemma DataThenSplitWill(e: Engine, d: seq<byte>, option: byte)
    requires e.state == Read && Length(e.buffer) == 0
    requires WellEscaped(d) && |d| > 0 && option !in e.options
    ensures FeedAll(e, [d + [IAC], [WILL, option]]).Ok?
    ensures FeedAll(e, [d + [IAC], [WILL, option]]).value.1 == [Data(Collapse(d)), OptionRequested(option)]
    ensures FeedAll(e, [d + [IAC], [WILL, option]]).value.0.options == e.options[option := OptEntry(Proposed, true)]
  {
    var c := d + [IAC, WILL, option];
    assert [c[..|d| + 1], c[|d| + 1..]] == [d + [IAC], [WILL, option]] by {
      assert c[..|d| + 1] == d + [IAC] && c[|d| + 1..] == [WILL, option];
    }
    var n := Negotiate(e.options, WILL, option);
    assert n == Ok((e.options[option := OptEntry(Proposed, true)], OptionRequested(option)));
    var r := FeedAll(e, [d + [IAC], [WILL, option]]);
    assert r.Ok? && r.value.1 == [Data(Collapse(d))] + [n.value.1] && r.value.0.options == n.value.0 by {
      DataThenSplitNegotiation(e, d, WILL, option, 1);
    }
  }

  lemma PlainPair()
    ensures WellEscaped([0x01, 0x02]) && Collapse([0x01, 0x02]) == [0x01, 0x02]
  {
    var d: seq<byte> := [0x01, 0x02];
    assert d[1..][1..] == [];
    assert CountIac(d) == 0;
    EscapeWithoutIac(d);
    CollapseEscape(d);
  }
}
