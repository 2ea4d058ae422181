# crow-telnet inbound engine, in Dafny

A model of the core of crow-telnet, a small TELNET client library for
Node.js, and proofs about it. The model covers three parts:

- `TelnetUtil` models `escapeSendData`. It doubles every IAC byte (0xFF)
  of outgoing data, as section "TELNET COMMAND STRUCTURE" of RFC 854
  requires.
- `Buffers` models `BufferList`, the chunk list that holds bytes received
  but not yet delivered.
- `Telnet` models the inbound automaton of `Telnet`. `_processData` splits
  what the server sends into data events, option-negotiation events
  (WILL/WONT/DO/DONT, RFC 854) and sub-negotiations (IAC SB … IAC SE,
  RFC 855). `_acceptOption` and `_rejectOption` keep the option table.
- `TelnetProofs` holds the lemmas that relate these parts.
- `TelnetSplit` shows that the socket may cut the stream anywhere the
  engine ends outside `Read`: any number of deliveries then act as one.

Notes on the model:

- `Outcomes` provides a `Result` type.
- `Bytes` provides the `byte` type (0..255).
- An engine is an immutable value: the state, the pending `BufferList` and
  the option table.
- `Feed(engine, chunk)` is one call of `_processData`. It returns the next
  engine and the events emitted, in order.
- Each `assert` that would throw in the source is a `Fail(fault)` outcome
  of its own kind. For example, `Fail(InvalidCommand(v))` is the "Invalid
  val … after IAC" assertion.
- `FeedAll` models successive socket `data` deliveries. Each one is fed to
  the engine the previous one left. It reports only the overall outcome: a
  fault in any delivery replaces the whole result.
- `Deliver` models the same deliveries as the socket's listeners see them.
  A delivery's events are emitted before the next delivery arrives, so a
  fault in delivery `k` keeps the events of deliveries `0 .. k-1` and stops
  the series there.

Two behaviours of the code are worth stating plainly:

- RFC 854 also defines NOP, AYT, GA and other commands. After IAC the code
  accepts only IAC, WILL, WONT, DO, DONT and SB, and asserts on every
  other byte (`src/telnet.js:185-188`; `TelnetProofs.IacThenOtherIsFatal`).
- `src/telnet.js:220` assigns the state after IAC SE to an undeclared
  variable, not to `_dataState`. So `_dataState` stays `SB_IAC` after a
  sub-negotiation, and the next ordinary byte is fatal
  (`TelnetProofs.AfterSubnegotiationStuck`).

The source calls three helpers it does not define, so the model uses
stand-ins:

- `TelnetUtil.Collapse` stands in for `unescapeSendData`. It turns each
  pair IAC IAC into one IAC and is proved to invert `Escape`.
- `Buffers.PopTail` stands in for `BufferList.pop(n)`. It drops the last
  `n` pending bytes and requires that at least `n` are pending. `Step`
  checks that two bytes are pending before the `pop(2)` stand-in, and
  faults with `TrimUnderflow` otherwise.
- `Telnet.EmitSubnegotiation` stands in for `_emitSubnegotiation`. It
  reports the pending bytes as one event and empties the buffer.

## Model

| member | source | states |
|---|---|---|
| TelnetUtil.EscapeSendData | src/telnetutil.js:11-35 | both passes together compute exactly `Escape` of the input, every 0xFF written twice and every other byte once, in order; with `EscapeWithoutIac` and `Escape`'s contract this gives the unchanged return for input without 0xFF and the exact output length |
| TelnetUtil.Escape | src/telnetutil.js:25-32 | the escaped form is as long as the input plus its count of 0xFF bytes |
| TelnetUtil.EscapeWithoutIac | src/telnetutil.js:21-23 | data with no 0xFF byte is its own escaped form |
| TelnetUtil.EscapeConcat | src/telnetutil.js:26-32 | escaping is applied byte by byte: escaping a concatenation is concatenating the escapes |
| TelnetUtil.CountIacConcat | src/telnetutil.js:14-19 | the 0xFF count of a concatenation is the sum of the counts |
| TelnetUtil.EscapePlacement | src/telnetutil.js:26-32 | input byte k lands at output position k plus the number of 0xFF bytes before it, followed by a second 0xFF when it is 0xFF |
| TelnetUtil.EscapeIsWellEscaped | src/telnetutil.js:26-32 | every 0xFF in escaped output belongs to an IAC IAC pair |
| TelnetUtil.EscapeRunsEven | src/telnetutil.js:26-32 | every maximal run of 0xFF in escaped output has even length |
| TelnetUtil.WellEscapedRunsEven | src/telnetutil.js:26-32 | a well-escaped sequence has only even-length runs of 0xFF |
| TelnetUtil.CollapseEscape | src/telnet.js:249 | collapsing IAC IAC pairs undoes escaping, for every input |
| TelnetUtil.EscapeCollapse | src/telnet.js:249 | on a well-escaped sequence, escaping undoes collapsing |
| TelnetUtil.Collapse | src/telnet.js:249 | collapsing never lengthens its input and leaves data without 0xFF unchanged |
| Buffers.New | src/bufferlist.js:23-25 | a new list holds no bytes |
| Buffers.Length | src/bufferlist.js:59-66 | the summed chunk lengths are the number of bytes the list holds |
| Buffers.SumLengths | src/bufferlist.js:61-63 | the reduce over chunk lengths equals the length of the flattened chunks |
| Buffers.Push | src/bufferlist.js:27-29 | the contents become the old contents followed by the pushed chunk, and the length grows by the chunk's length |
| Buffers.Clear | src/bufferlist.js:31-33 | afterwards the list is empty |
| Buffers.PushEmptyUnobservable | src/bufferlist.js:27-29 | pushing an empty chunk changes neither contents nor length |
| Buffers.ClearIdempotent | src/bufferlist.js:31-33 | clearing twice is clearing once |
| Buffers.Get | src/bufferlist.js:35-47 | fails exactly when the index is negative or at least the length; otherwise yields the byte at that index of the flattened contents |
| Buffers.GetBuffer | src/bufferlist.js:49-57 | the copy is the concatenation of all chunks, of the list's length |
| Buffers.PopTail | src/telnet.js:197 | dropping n bytes leaves exactly the prefix of length Length - n |
| Telnet.Initial | src/telnet.js:45-52 | a new engine reads, holds no bytes and knows no options |
| Telnet.OptionsExtendTransitive | src/telnet.js:256-306 | "entries kept, finished entries unchanged" composes across steps |
| Telnet.EmitData | src/telnet.js:245-253 | state and options are untouched, the buffer ends empty, and one data event is emitted exactly when bytes were pending |
| Telnet.EmitSubnegotiation | src/telnet.js:216-218 | one sub-negotiation event carrying the pending bytes; buffer emptied |
| Telnet.AcceptOption | src/telnet.js:256-279 | fails with a renegotiation fault exactly when the option is already done; otherwise only that entry changes, it becomes on, it is done exactly when it was known, and the event is optionAccepted for a known option, optionRequested for a new one |
| Telnet.RejectOption | src/telnet.js:282-306 | fails exactly when the option is already done; otherwise only that entry changes, it becomes done and off, and the event is optionRejected |
| Telnet.Step | src/telnet.js:148-226 | one byte never yields the empty-chunk fault; events are only appended; entering a WILL/WONT/DO/DONT state leaves nothing pending and the start index just past the byte |
| Telnet.Run | src/telnet.js:148-227 | the byte loop never yields the empty-chunk fault, only appends events, and keeps the start index within the chunk |
| Telnet.StepExtendsOptions | src/telnet.js:158-172 | one byte keeps every option entry and never changes a finished one |
| Telnet.RunExtendsOptions | src/telnet.js:148-227 | the same for the byte loop over the rest of the chunk |
| Telnet.Finish | src/telnet.js:229-241 | at the end of a chunk, outside Read the rest of the span is kept pending and nothing is emitted; in Read the buffer ends empty and the whole span, collapsed, is emitted as one data event when it is not empty |
| Telnet.Feed | src/telnet.js:144-243 | fails with the empty-chunk fault exactly for an empty chunk; options only extend; ending in Read leaves nothing pending |
| Telnet.FeedAll | src/telnet.js:133-136 | options only extend over any number of deliveries; any empty delivery makes the whole sequence fail |
| Telnet.Deliver | src/telnet.js:133-136 | no fault exactly when every delivery completes, and then the same engine and events as `FeedAll`; otherwise `FeedAll`'s fault; options only extend |
| TelnetProofs.StepFollowsSuccessor | src/telnet.js:151-226 | each byte moves the state along the transition table of the switch, and fails wherever that table fails |
| TelnetProofs.StepCommand | src/telnet.js:179-200 | a command after IAC flushes the span before that IAC as one data event, empties the buffer and moves the start index past the command |
| TelnetProofs.StepInSbIac | src/telnet.js:210-222 | after SB … IAC, IAC returns to Sb, a byte other than IAC or SE is fatal, and SE reports the span without its closing IAC |
| TelnetProofs.InitialValid | src/telnet.js:45-52 | a new engine satisfies the buffer invariant |
| TelnetProofs.StepPreservesValid | src/telnet.js:158-222 | from a state meeting the buffer invariant, no byte trips the "Buffer not empty" assertions (lines 160, 168) or underflows the `pop(2)` after IAC and a command (line 197), and the invariant holds afterwards; the `pop(2)` after a second SE (line 217) is not covered, see `AfterSubnegotiationStuck` |
| TelnetProofs.RunPreservesValid | src/telnet.js:148-227 | the same for the whole byte loop |
| TelnetProofs.FeedPreservesValid | src/telnet.js:144-243 | a chunk fed to a valid engine never trips the assertions at lines 160 and 168 or underflows the `pop(2)` after IAC and a command, and leaves a valid engine |
| TelnetProofs.FeedAllPreservesValid | src/telnet.js:133-136 | the same for any sequence of deliveries |
| TelnetProofs.FinishIdle | src/telnet.js:232-241 | ending a chunk in Read with nothing left emits nothing |
| TelnetProofs.FinishFlush | src/telnet.js:232-241 | ending a chunk in Read with only fresh bytes left emits them, collapsed, as one data event |
| TelnetProofs.RunSkipsEscaped | src/telnet.js:152-213 | a well-escaped stretch leaves the loop where it was, whatever follows, both in Read (lines 152-156 and 177) and in Sb (lines 204-213) |
| TelnetProofs.EmitDataDeliversEscaped | src/telnet.js:245-253 | pending bytes that are an escaped message are delivered as exactly that message |
| TelnetProofs.FeedWellEscaped | src/telnet.js:144-243 | a well-escaped chunk fed to an idle engine comes out as one data event with the IAC pairs collapsed, and the engine is idle again |
| TelnetProofs.FeedPlainData | src/telnet.js:144-243 | a chunk without 0xFF fed to an idle engine comes out unchanged as one data event |
| TelnetProofs.SendThenReceive | src/telnet.js:100-104 | data escaped for sending and fed to an idle engine is received as exactly the original data |
| TelnetProofs.RunThroughCommand | src/telnet.js:174-200 | IAC and a command met in Read flush the span before the IAC and leave the command's state with nothing pending |
| TelnetProofs.FeedDataThenNegotiation | src/telnet.js:144-243 | data then IAC cmd option in one chunk delivers the data event first, then the option event |
| TelnetProofs.FeedNegotiation | src/telnet.js:144-243 | IAC cmd option fed to an idle engine gives exactly the option table's verdict and event |
| TelnetProofs.FeedAllSingle | src/telnet.js:133-136 | one delivery is one feed |
| TelnetProofs.FeedLoneIac | src/telnet.js:229-241 | a chunk ending in IAC is withheld: no event, the IAC pending |
| TelnetProofs.FeedIacCommand | src/telnet.js:174-200 | IAC and a negotiation command alone emit nothing and wait for the option |
| TelnetProofs.FeedOptionAlone | src/telnet.js:158-172 | an option byte delivered alone completes a negotiation begun earlier |
| TelnetProofs.FeedCommandOption | src/telnet.js:158-200 | a command and its option completing an earlier lone IAC give the same result as the unsplit negotiation |
| TelnetProofs.FeedCommandAlone | src/telnet.js:174-200 | a command completing an earlier lone IAC emits nothing and leaves nothing pending |
| TelnetProofs.NegotiationSplitInvariant | src/telnet.js:229-241 | IAC cmd option split across deliveries at any boundary gives the same engine and events as one delivery |
| TelnetProofs.IacThenOtherIsFatal | src/telnet.js:185-189 | after IAC, any byte other than IAC, WILL, WONT, DO, DONT or SB aborts the feed |
| TelnetProofs.RunSubnegotiation | src/telnet.js:204-221 | IAC SB payload IAC SE yields one sub-negotiation event carrying the payload |
| TelnetProofs.FeedSubnegotiation | src/telnet.js:204-221 | a complete sub-negotiation fed to an idle engine reports exactly its payload and leaves the engine in SbIac, options unchanged, nothing pending |
| TelnetProofs.AfterSubnegotiationStuck | src/telnet.js:220 | after a sub-negotiation, an ordinary byte is fatal and a further SE underflows the trim |
| TelnetProofs.AcceptTwiceFinalises | src/telnet.js:256-279 | an unknown option accepted once is proposed, accepted twice is done and on, and after that any accept or reject is fatal |
| TelnetProofs.RejectIsFinal | src/telnet.js:282-306 | a rejected option is done and off, and any later accept or reject is fatal |
| TelnetProofs.FeedAllKeepsDoneOptions | src/telnet.js:256-306 | over any deliveries, a finished option entry is never changed or removed |
| TelnetProofs.DeliverAfterCompleted | src/telnet.js:133-136 | after any completed prefix of the deliveries, that prefix's events are delivered ahead of whatever the remaining deliveries produce or fault with |
| TelnetProofs.DeliverFaultKeepsEarlier | src/telnet.js:133-136 | a fault in delivery `k` stops the series with the engine and events of deliveries `0 .. k-1`, while `FeedAll` reports only the fault |
| TelnetProofs.ScenarioPlainData | src/telnet.js:144-243 | bytes 01 02 03 to a new engine give one data event 01 02 03 |
| TelnetProofs.ScenarioEscapedData | src/telnet.js:144-243 | 01 FF FF 03 gives one data event 01 FF 03 |
| TelnetProofs.ScenarioWill | src/telnet.js:158-164 | IAC WILL 0x46 to a new engine gives optionRequested(0x46) |
| TelnetProofs.ScenarioSubnegotiation | src/telnet.js:204-221 | IAC SB 46 01 02 IAC SE to a new engine reports the payload 46 01 02 and leaves it in SbIac |
| TelnetProofs.ScenarioSplitNop | src/telnet.js:185-189 | 01 02 IAC withholds everything, and NOP in the next delivery aborts it |
| TelnetProofs.ScenarioDataThenNop | src/telnet.js:133-241 | 01 02 03 then IAC NOP in the next delivery: the data event 01 02 03 stays delivered, and the series stops with the invalid-command fault for 0xF1 |
| TelnetSplit.StepByView | src/telnet.js:148-226 | each byte's effect (the fault, or the next state, option table, span and appended events) is what the reference `ViewStep` computes from the state, the option table, the span and whether the buffer is empty, so it does not depend on how the span is divided between the buffer and the chunk |
| TelnetSplit.StepAgree | src/telnet.js:148-226 | two scans with the same view and the same bytes still to come take the same step: the same fault, or again two such scans |
| TelnetSplit.RunAgree | src/telnet.js:148-227 | the same for the rest of the byte loop |
| TelnetSplit.FinishAgree | src/telnet.js:229-241 | such scans end their chunks with the same state, options, pending bytes and events |
| TelnetSplit.RunPrefix | src/telnet.js:148-227 | the bytes of a chunk are read the same whatever follows them in the chunk |
| TelnetSplit.RunEndsInCommand | src/telnet.js:158-200 | a chunk that ends in a WILL/WONT/DO/DONT state has nothing pending and its start index at the end |
| TelnetSplit.FeedSplit | src/telnet.js:229-241 | when a delivery leaves the engine outside Read, it and the next delivery give the same fault, or the same events, state, options and pending bytes, as the two joined into one delivery |
| TelnetSplit.FeedFramePrefix | src/telnet.js:174-241 | IAC SB payload IAC SE cut before its last byte is withheld: no event, the engine outside Read |
| TelnetSplit.FeedAllSplitAny | src/telnet.js:229-241 | any number of deliveries, each but the last ending outside Read, give the same fault, or the same events, state, options and pending bytes, as the same bytes in one delivery |
| TelnetSplit.SubnegotiationSplitAny | src/telnet.js:204-241 | a sub-negotiation cut into any number of non-empty deliveries reports exactly its payload once and leaves SbIac, the same options and nothing pending |
| TelnetSplit.SubnegotiationSplit | src/telnet.js:204-241 | a sub-negotiation split into two deliveries at any byte reports exactly its payload once, as in one delivery |
| TelnetSplit.DataThenSplitNegotiation | src/telnet.js:174-241 | data then IAC cmd option, split after the IAC or after the command, still delivers the data first and then the option event, exactly as in one delivery |
| TelnetSplit.DataThenSplitWill | src/telnet.js:174-241 | data and IAC, then WILL and an unknown option in the next delivery: a data event with the collapsed data, then optionRequested, and the option recorded as proposed and on |
| TelnetSplit.ScenarioSplitWill | src/telnet.js:174-241 | 01 02 IAC then WILL 0x46 in the next delivery gives a data event 01 02, then optionRequested(0x46), and records 0x46 as proposed and on |

## Left out

- Socket plumbing (`connect`, `close`, `isConnected`, `_onSocketConnect`, `_onSocketError`, `_onSocketClose`) is I/O. `send` appears only through `EscapeSendData`, the bytes it writes.
- `requestOption`, `rejectOption` and `subnegotiateOption` only assert "Not implemented", so the model has no outbound negotiation. For the same reason the `Requested` option state is checked for but never created.
- Logging and the `DEBUG` switch have no effect on behaviour.
- Node `Buffer` identity is not modelled: `escapeSendData` returning the same object, and `slice` sharing memory. Byte sequences are values.
- Telnet.FeedAll: a fault in any delivery discards the events and engine of the earlier deliveries that completed, although the source emitted those events before the fault. `Telnet.Deliver` keeps them.
- Telnet.Deliver: within the delivery that faults, the events emitted before the assertion and the engine's partial state are dropped, as for `Telnet.Feed`.
- Telnet.Feed: a failed assertion discards the whole chunk's outcome. In the source, events already emitted in that chunk have been delivered and the engine keeps its partial state when the assertion throws.
- The `default: "Invalid state"` branch of the switch cannot be reached, because `State` is a closed type.
- Telnet.EmitData: the data is collapsed by `Collapse`. The source's `unescapeSendData` is not part of this model (it is not defined in the source files).
- Telnet.EmitSubnegotiation: the event carries the raw pending bytes, the option byte and the payload, without interpretation.
- Buffers.PopTail: `BufferList.pop` is not defined in the source files. The stand-in requires that enough bytes are pending; `Step` checks that two are pending before the `pop(2)` stand-in and faults with `TrimUnderflow` otherwise.
- TelnetSplit.FeedSplit: the two outcomes agree on the pending bytes, not on how the `BufferList` splits them into chunks, which no operation of the engine observes.
- TelnetSplit.FeedAllSplitAny: likewise, the outcomes agree on the pending bytes, not on their split into `BufferList` chunks.
- Integer widths: lengths and indexes are unbounded integers. No JavaScript number limit is reached by any buffer the source can hold.
