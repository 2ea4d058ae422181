/** The inbound TELNET automaton of src/telnet.js (`_processData`,
    `_emitData`, `_acceptOption`, `_rejectOption`) as pure functions.

    An `Engine` holds what the source keeps in `this`: the automaton state
    (`_dataState`), the pending bytes (`_buffer`) and the option table
    (`_options`). `Feed` consumes one chunk and returns the new engine
    together with the events emitted, in order; a failed `assert` becomes
    `Fail(fault)`. Command framing follows RFC 854 and, for sub-negotiation,
    RFC 855. */
module Telnet {
  import opened Bytes
  import opened Outcomes
  import opened TelnetUtil
  import opened Buffers

  // Command bytes of the `OP` table (IAC itself comes from TelnetUtil).
  const SE: byte := 0xF0
  const SB: byte := 0xFA
  const WILL: byte := 0xFB
  const WONT: byte := 0xFC
  const DO: byte := 0xFD
  const DONT: byte := 0xFE

  /** The eight `STATE_*` values. */
  datatype State = Read | Iac | Will | Wont | Do | Dont | Sb | SbIac

  /** The `state` string of an option entry; `Requested` is checked for but
      never created, since outbound requests are not implemented. */
  datatype Negotiation = Requested | Proposed | Done

  /** An entry of `_options`: negotiation progress and whether it is on. */
  datatype OptEntry = OptEntry(state: Negotiation, on: bool)

  type Options = map<byte, OptEntry>

  datatype Event =
    | Data(bytes: seq<byte>)
    | OptionRequested(option: byte)
    | OptionAccepted(option: byte)
    | OptionRejected(option: byte)
      /** Stand-in for the never-defined `_emitSubnegotiation`: the pending
          bytes (option byte, then the raw payload) as one opaque event. */
    | Subnegotiation(payload: seq<byte>)

  /** The failed assertion that aborts a feed. */
  datatype Fault =
    | EmptyChunk
    | InvalidCommand(val: byte)
    | ExpectedSe(val: byte)
    | BufferNotEmpty
    | Renegotiation(option: byte)
      /** The `pop(2)` stand-in was asked for more bytes than are pending. */
    | TrimUnderflow(at: State)

  datatype Engine = Engine(state: State, buffer: BufferList, options: Options)

  /** A fresh engine, as built by the constructor. */
  function Initial(): (e: Engine)
    ensures e.state == Read && Length(e.buffer) == 0 && e.options == map[]
  {
    Engine(Read, New(), map[])
  }

  /** Progress through one chunk: the engine, `startIndex`, and the events
      emitted so far. */
  datatype Scan = Scan(engine: Engine, start: nat, events: seq<Event>)

  /** Entries are never removed, and an entry that is `Done` never changes. */
  ghost predicate OptionsExtend(before: Options, after: Options)
  {
    && before.Keys <= after.Keys
    && forall k :: k in before && before[k].state == Done ==> k in after && after[k] == before[k]
  }

  lemma OptionsExtendTransitive(a: Options, b: Options, c: Options)
    requires OptionsExtend(a, b) && OptionsExtend(b, c)
    ensures OptionsExtend(a, c)
  {
  }

  /** `_emitData`: when bytes are pending, take them all, empty the buffer
      and emit them, collapsed, as one data event. */
  function EmitData(e: Engine): (r: (Engine, seq<Event>))
    ensures r.0.state == e.state && r.0.options == e.options
    ensures Length(r.0.buffer) == 0
    ensures |r.1| <= 1
    ensures |r.1| == 1 <==> Length(e.buffer) > 0
    ensures |r.1| == 1 ==> r.1[0].Data?
  {
    if Length(e.buffer) > 0 then
      var taken := Contents(e.buffer);
      (e.(buffer := Clear(e.buffer)), [Data(Collapse(taken))])
    else
      (e, [])
  }

  /** Stand-in for `_emitSubnegotiation`: reports the pending bytes as one
      `Subnegotiation` event and empties the buffer. */
  function EmitSubnegotiation(e: Engine): (r: (Engine, seq<Event>))
    ensures r.0.state == e.state && r.0.options == e.options
    ensures Length(r.0.buffer) == 0
    ensures r.1 == [Subnegotiation(Contents(e.buffer))]
  {
    (e.(buffer := Clear(e.buffer)), [Subnegotiation(Contents(e.buffer))])
  }

  /** `_acceptOption` (WILL / DO), apart from the buffer clear that the
      caller performs: an unknown option becomes proposed and on, a
      requested or proposed one becomes done and on, a done one is fatal. */
  function AcceptOption(opts: Options, option: byte): (r: Result<(Options, Event), Fault>)
    ensures r.Fail? <==> option in opts && opts[option].state == Done
    ensures r.Fail? ==> r.error == Renegotiation(option)
    ensures r.Ok? ==> r.value.0.Keys == opts.Keys + {option}
    ensures r.Ok? ==> r.value.0 == opts[option := r.value.0[option]]
    ensures r.Ok? ==> r.value.0[option].on
    ensures r.Ok? ==> (r.value.0[option].state == Done <==> option in opts)
    ensures r.Ok? ==> r.value.1 == (if option in opts then OptionAccepted(option) else OptionRequested(option))
  {
    if option in opts then
      match opts[option].state
      case Requested | Proposed => Ok((opts[option := OptEntry(Done, true)], OptionAccepted(option)))
      case Done => Fail(Renegotiation(option))
    else
      Ok((opts[option := OptEntry(Proposed, true)], OptionRequested(option)))
  }

  /** `_rejectOption` (WONT / DONT), apart from the buffer clear: an unknown
      option is done and off at once, a requested or proposed one becomes
      done and off, a done one is fatal. */
  function RejectOption(opts: Options, option: byte): (r: Result<(Options, Event), Fault>)
    ensures r.Fail? <==> option in opts && opts[option].state == Done
    ensures r.Fail? ==> r.error == Renegotiation(option)
    ensures r.Ok? ==> r.value.0.Keys == opts.Keys + {option}
    ensures r.Ok? ==> r.value.0 == opts[option := r.value.0[option]]
    ensures r.Ok? ==> r.value.0[option] == OptEntry(Done, false)
    ensures r.Ok? ==> r.value.1 == OptionRejected(option)
  {
    if option in opts then
      match opts[option].state
      case Requested | Proposed => Ok((opts[option := OptEntry(Done, false)], OptionRejected(option)))
      case Done => Fail(Renegotiation(option))
    else
      Ok((opts[option := OptEntry(Done, false)], OptionRejected(option)))
  }

  /** The command bytes accepted after IAC other than IAC itself. */
  predicate IsCommand(val: byte)
  {
    val == WILL || val == WONT || val == DO || val == DONT || val == SB
  }

  /** The state a command byte leads to. */
  function CommandState(val: byte): State
    requires IsCommand(val)
  {
    if val == WILL then Will
    else if val == WONT then Wont
    else if val == DO then Do
    else if val == DONT then Dont
    else Sb
  }

  /** The bytes of the current span so far: what is pending plus the part of
      the chunk from `startIndex` up to (not including) position `i`. */
  function Span(s: Scan, chunk: seq<byte>, i: nat): seq<byte>
    requires s.start <= i <= |chunk|
  {
    Contents(s.engine.buffer) + chunk[s.start..i]
  }

  /** One iteration of the byte loop of `_processData`, on `chunk[i]`. */
  function Step(s: Scan, chunk: seq<byte>, i: nat): (r: Result<Scan, Fault>)
    requires s.start <= i < |chunk|
    ensures r.Fail? ==> r.error != EmptyChunk
    ensures r.Ok? ==> r.value.start <= i + 1
    ensures r.Ok? ==> s.events <= r.value.events
    ensures r.Ok? && r.value.engine.state in {Will, Wont, Do, Dont} ==>
              Length(r.value.engine.buffer) == 0 && r.value.start == i + 1
  {
    var e := s.engine;
    var val := chunk[i];
    match e.state
    case Read =>
      Ok(if val == IAC then s.(engine := e.(state := Iac)) else s)
    case Will | Do =>
      if Length(e.buffer) != 0 then Fail(BufferNotEmpty)
      else
        var accepted :- AcceptOption(e.options, val);
        Ok(Scan(Engine(Read, Clear(e.buffer), accepted.0), i + 1, s.events + [accepted.1]))
    case Wont | Dont =>
      if Length(e.buffer) != 0 then Fail(BufferNotEmpty)
      else
        var rejected :- RejectOption(e.options, val);
        Ok(Scan(Engine(Read, Clear(e.buffer), rejected.0), i + 1, s.events + [rejected.1]))
    case Iac =>
      if val == IAC then
        // an escaped 0xFF: it stays in the span
        Ok(s.(engine := e.(state := Read)))
      else if !IsCommand(val) then
        Fail(InvalidCommand(val))
      else
        var pushed := Push(e.buffer, chunk[s.start..i + 1]);
        if Length(pushed) < 2 then Fail(TrimUnderflow(Iac))
        else
          var flushed := EmitData(Engine(CommandState(val), PopTail(pushed, 2), e.options));
          Ok(Scan(flushed.0, i + 1, s.events + flushed.1))
    case Sb =>
      Ok(if val == IAC then s.(engine := e.(state := SbIac)) else s)
    case SbIac =>
      if val == IAC then
        Ok(s.(engine := e.(state := Sb)))
      else if val != SE then
        Fail(ExpectedSe(val))
      else
        var pushed := Push(e.buffer, chunk[s.start..i + 1]);
        if Length(pushed) < 2 then Fail(TrimUnderflow(SbIac))
        else
          // the source assigns the new state to a global, so `_dataState`
          // stays SbIac
          var reported := EmitSubnegotiation(e.(buffer := PopTail(pushed, 2)));
          Ok(Scan(reported.0, i + 1, s.events + reported.1))
  }

  /** The byte loop of `_processData` from position `i` to the end. */
  function Run(s: Scan, chunk: seq<byte>, i: nat): (r: Result<Scan, Fault>)
    requires s.start <= i <= |chunk|
    ensures r.Fail? ==> r.error != EmptyChunk
    ensures r.Ok? ==> r.value.start <= |chunk|
    ensures r.Ok? ==> s.events <= r.value.events
    decreases |chunk| - i
  {
    if i == |chunk| then Ok(s)
    else
      var next :- Step(s, chunk, i);
      Run(next, chunk, i + 1)
  }

  /** One byte only adds option entries and never changes a finished one. */
  lemma StepExtendsOptions(s: Scan, chunk: seq<byte>, i: nat)
    requires s.start <= i < |chunk| && Step(s, chunk, i).Ok?
    ensures OptionsExtend(s.engine.options, Step(s, chunk, i).value.engine.options)
  {
    var opts := s.engine.options;
    var after := Step(s, chunk, i).value.engine.options;
    match s.engine.state
    case Will | Do =>
      var a := AcceptOption(opts, chunk[i]);
      assert a.Ok? && after == a.value.0;
      OptionUpdateExtends(opts, chunk[i], a.value.0[chunk[i]]);
    case Wont | Dont =>
      var a := RejectOption(opts, chunk[i]);
      assert a.Ok? && after == a.value.0;
      OptionUpdateExtends(opts, chunk[i], a.value.0[chunk[i]]);
    case Read =>
    case Iac =>
      assert after == opts;
    case Sb =>
    case SbIac =>
      assert after == opts;
  }

  /** Setting an entry that is not finished keeps every other entry. */
  lemma OptionUpdateExtends(opts: Options, option: byte, entry: OptEntry)
    requires option !in opts || opts[option].state != Done
    ensures OptionsExtend(opts, opts[option := entry])
  {
  }

  /** The same for the byte loop from position `i` on. */
  lemma {:induction false} RunExtendsOptions(s: Scan, chunk: seq<byte>, i: nat)
    requires s.start <= i <= |chunk| && Run(s, chunk, i).Ok?
    ensures OptionsExtend(s.engine.options, Run(s, chunk, i).value.engine.options)
    decreases |chunk| - i
  {
    if i < |chunk| {
      var next := Step(s, chunk, i).value;
      StepExtendsOptions(s, chunk, i);
      RunExtendsOptions(next, chunk, i + 1);
      OptionsExtendTransitive(s.engine.options, next.engine.options, Run(s, chunk, i).value.engine.options);
    }
  }

  /** The tail of `_processData`: bytes after `startIndex` are kept pending;
      in `Read` the pending bytes are then flushed as data, in any other
      state they are withheld. */
  function Finish(s: Scan, chunk: seq<byte>): (r: (Engine, seq<Event>))
    requires s.start <= |chunk|
    ensures r.0.state == s.engine.state && r.0.options == s.engine.options
    ensures r.0.state != Read ==> r.1 == s.events
    ensures r.0.state != Read ==> Contents(r.0.buffer) == Span(s, chunk, |chunk|)
    ensures r.0.state == Read ==> Length(r.0.buffer) == 0
    ensures r.0.state == Read ==>
              r.1 == s.events + (if |Span(s, chunk, |chunk|)| > 0 then [Data(Collapse(Span(s, chunk, |chunk|)))] else [])
  {
    var e := if s.start < |chunk| then s.engine.(buffer := Push(s.engine.buffer, chunk[s.start..])) else s.engine;
    assert Contents(e.buffer) == Span(s, chunk, |chunk|);
    if e.state == Read then
      var flushed := EmitData(e);
      (flushed.0, s.events + flushed.1)
    else
      (e, s.events)
  }

  /** `_processData(chunk)`: the chunk must not be empty. */
  function Feed(e: Engine, chunk: seq<byte>): (r: Result<(Engine, seq<Event>), Fault>)
    ensures |chunk| == 0 <==> r == Fail(EmptyChunk)
    ensures r.Ok? ==> OptionsExtend(e.options, r.value.0.options)
    ensures r.Ok? && r.value.0.state == Read ==> Length(r.value.0.buffer) == 0
  {
    if |chunk| == 0 then Fail(EmptyChunk)
    else
      var s :- Run(Scan(e, 0, []), chunk, 0);
      RunExtendsOptions(Scan(e, 0, []), chunk, 0);
      Ok(Finish(s, chunk))
  }

  /** Successive `data` deliveries of the socket (`_onSocketData`), each one
      fed to the engine left by the previous; the events are concatenated. */
  function FeedAll(e: Engine, chunks: seq<seq<byte>>): (r: Result<(Engine, seq<Event>), Fault>)
    ensures r.Ok? ==> OptionsExtend(e.options, r.value.0.options)
    ensures (exists k :: 0 <= k < |chunks| && |chunks[k]| == 0) ==> r.Fail?
    decreases |chunks|
  {
    if |chunks| == 0 then Ok((e, []))
    else
      var first :- Feed(e, chunks[0]);
      var rest :- FeedAll(first.0, chunks[1..]);
      OptionsExtendTransitive(e.options, first.0.options, rest.0.options);
      Ok((rest.0, first.1 + rest.1))
  }

  /** What the listeners have seen after a series of deliveries: the events
      of every delivery that completed, the engine the last completed one
      left, and the fault that stopped the series, if one did. */
  datatype Delivery = Delivery(engine: Engine, events: seq<Event>, fault: Option<Fault>)

  /** Successive deliveries as the socket's listeners observe them: each
      delivery's events are emitted before the next delivery arrives, so a
      fault keeps the events of the deliveries before it. Nothing after the
      fault is processed, since the failed assertion throws out of the
      `data` handler. */
  function Deliver(e: Engine, chunks: seq<seq<byte>>): (r: Delivery)
    ensures r.fault == None <==> FeedAll(e, chunks).Ok?
    ensures r.fault == None ==> FeedAll(e, chunks) == Ok((r.engine, r.events))
    ensures r.fault.Some? ==> FeedAll(e, chunks) == Fail(r.fault.value)
    ensures OptionsExtend(e.options, r.engine.options)
    decreases |chunks|
  {
    if |chunks| == 0 then Delivery(e, [], None)
    else
      match Feed(e, chunks[0])
      case Fail(f) => Delivery(e, [], Some(f))
      case Ok(first) =>
        var rest := Deliver(first.0, chunks[1..]);
        OptionsExtendTransitive(e.options, first.0.options, rest.engine.options);
        Delivery(rest.engine, first.1 + rest.events, rest.fault)
  }
}
