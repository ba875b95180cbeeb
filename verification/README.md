# Verified model of the terminal parser and the plan tooling

This project models, in Dafny 4.11, the parts of the repository whose correctness is hardest to
see from the code, and proves what their documentation and tests promise for all inputs.

**The escape-sequence parser** (`crates/vte`). `VteMachine` is a reference machine that reads one
byte at a time and has no chunks, no bulk paths and no arrays. `VteParser` and `VteParams` hold
the parser and its parameter list in the form of the source: classes with fixed arrays, index
tables, a four-byte buffer for a split character, a text fast path and an APC fast path. Every
method is proved to do what the machine does, and everything else is proved about the machine:
chunk splits (`VteChunks`), where a call stops (`VteStops`), reachable states and history (`VteHistory`), the callback protocol
(`VteProtocol`), the two APC paths and C0 controls (`VteStrings`), text (`VteText`), operating
system commands (`VteOsc`), control sequences (`VteCsi`), device control strings (`VteDcs`), plain
escape sequences (`VteEsc`), application program strings and ignored strings (`VteApc`), and which
sequences are dispatched at all (`VteShapes`). Callbacks are recorded in a log; a
bulk APC callback is recorded as one callback a byte, which is what its default body does.

**Graph algorithms** (`scripts/plan_corpus/dag.py`): Tarjan's components, redundant dependencies
as a transitive reduction, reachable nodes, and the deepest chain of blocked plans.

**Windows argument quoting** (`crates/portable-pty`): the printer, against the rules of
"Parsing C command-line arguments" written as a parser.

**Frontmatter patches** (`scripts/verify_roadmap`): the edits that depend on blocks, the
compare-and-swap patch as a protocol of interleaved steps, and a batch of fixes.

**Bug-marker repair** (`scripts/plan_corpus`): scan, plan, edit and rescan.

`dafny verify dfyconfig.toml` verifies everything.

## What the proofs show about the code

Where a promise does not hold of the code, the model keeps the code and the condition is exact; the
one condition that is exact on some files only says which.

- A chunk boundary inside a two-byte character matters in two cases. When U+0080..U+009F is
  split, the character is printed (crates/vte/src/lib.rs:869, 885), while the same character in
  one chunk is executed (line 912). When a two-byte character is split and the next chunk
  continues with one ASCII byte and then a byte from 0x80, `valid_bytes - old_bytes` (line 888)
  consumes the ASCII byte as well, and it is lost. `AdvanceFaithfulIff` shows that there are no
  others, and `ChunksFaithfulIff` shows the same for lists of chunks.
- The comment on the APC slice path says that it leaves bytes from 0x80 to the byte path
  (lib.rs:550-560). The code forwards all of them but 0x9C (lines 563-574), so `advance` and
  `advance_until_terminated` agree on a payload exactly when it is ASCII (`ApcPathsAgreeIff`).
- `advance_until_terminated` says that it stops when `terminated` holds after reading a byte
  (lib.rs:149-158). It completes a character pending from an earlier call before it asks for the
  first time (lines 164-172), and within Ground it asks after a whole stretch of text (lines
  173-182). It does what it says exactly when the first position where the performer asks to stop
  lies behind the pending character and not within such a stretch (`StopsAtFirstIff`; inputs where
  it reads on are in `ReadsPastStop` and `ReadsPastPending`). The start of a character that the
  next byte does not continue counts as reported before that byte.
- The comment that sub-parameter positions are always 0 (params.rs:15) holds exactly when no
  list the object has ever held had a group start at one of them (`ZeroAtSubparamsIff`; a run that
  fails is in `StaleSlot`). Iteration never reads these slots. The size hint of the iterator
  (params.rs:118-121) counts values, and is right exactly when no group that remains has
  sub-parameters (`SizeHint`).
- `classify_redundant_dependency` says that it asks for chains of depth three (dag.py:1736-1739).
  Its guard admits A->B->C and never excludes anything; a finding is as documented exactly when no
  node lies between its ends (`DocumentedDepthIff`, `FindingsAreDocumentedIff`; an input is in
  `DepthTwoIsReported`). Its findings are the transitive reduction on acyclic graphs. With cycles,
  removing them keeps reachability exactly under the two conditions of `ReductionKeepsReachIff`
  (a graph that loses one is in `CyclicReductionLosesReach`).
- `_transitive_successors` says that it follows dependency edges only (dag.py:1101); it follows
  edges of every kind. The result is the documented one exactly when no supersedes edge leads out
  of it (`SuccessorsAsDocumentedIff`; an input is in `SupersededIsSuccessor`). The same edges enter
  the cycles, which the finding calls cycles of the depends_on graph (dag.py:1085), and the deepest
  chains (dag.py:1917-1920). The cycles are as described exactly when every edge on a cycle has
  a chain of dependencies beside it (`CyclesAsDocumentedIff`; `SupersedesClosesCycle`), and a chain
  exactly when its steps are dependencies and no longer chain of dependencies ends in a plan that
  supersedes another (`ChainAsDocumentedIff`; `SupersededIsBlocker`).
- `remove_key` after `insert_key` gives back the frontmatter exactly when it did not have the key
  before and no blank line follows the new one: a blank separator is removed with it
  (`RemoveUndoesInsertIff`; inputs are in `RemoveTakesMore`).
- `remove_key` says that a value extends to the next top-level key (patcher.py:113-117), but it
  stops at any line that is not indented. A key goes with all of its value exactly when no such
  line ends a removed block (`RemovalAsDocumentedIff`; a list at the start of its lines is left
  behind in `ListStays`), and an insertion separates such a list from its key exactly when it is
  the next content (`InsertTearsValueIff`).
- Between the recheck and the replace of a patch another write can land, as the source says
  (patcher.py:451-454). Over all runs, no write is lost, that is, the file is at all times the
  replay of all writes so far, exactly when every replace that takes effect is harmless: patching
  the file that it finds would give what it writes (`NoWriteIsLostIff`). A stronger notion, that
  every patch was also applied to exactly what was scanned for it, holds exactly when every such
  replace finds that content (`RunsAreSerialIff`). Two inputs are in `WriteBeforeReplace` and
  `TwoPatchersRace`.
- Applying planned edits is called idempotent (bug_validators.py:287, 325). Repeated without a new
  scan it is so where no edit that takes effect has another one below it in the file, whose header
  it moves; and where no header is indented, only there (`RepeatedEditsIff`; two entries that get
  a line again are in `InsertsAgain`). Repeated with a new scan it always is (`RepairIsFixpoint`).
- Marker repair leaves a bug unmarked exactly when its body has the phrase `Superseded by:`
  outside a line-start marker, and creates an orphan exactly when the name read back out of the
  inserted line is none of the claiming plans, which needs white space, a comma or a backtick in
  a plan's name.

## Model

| member | source | states |
|---|---|---|
| VteParser.Parser.Advance | crates/vte/src/lib.rs:127-147 | Feeding a chunk ends in the state and with the callbacks of the byte-by-byte machine, except at the two lossy splits; the loop ends exactly at the end of the chunk |
| VteParser.Parser.AdvanceUntilTerminated | crates/vte/src/lib.rs:159-183 | The call returns the first position behind a pending character that is outside stretches of text and at which the performer asks to stop, or the end; exactly what is due there has been reported, and running the machine over the unread bytes completes the run over all of them |
| VteParser.Parser.ReadNext | crates/vte/src/lib.rs:173-182 | One round reads one byte outside Ground, and in Ground a whole stretch of text, and ends where the machine does |
| VteStops.TextRound | crates/vte/src/lib.rs:753-821 | A read of text passes over positions within text only, and ends at a position outside text or at the end |
| VteStops.ByteRound | crates/vte/src/lib.rs:173-182 | A byte outside Ground leads to a position outside text, with nothing left to report |
| VteStops.StopsOutsideGround | crates/vte/src/lib.rs:149-183 | Outside Ground no byte is read once the performer has asked to stop |
| VteStops.StopsAtFirstIff | crates/vte/src/lib.rs:149-183 | The whole call, with or without a character pending from an earlier one, stops at the first position where the performer asks to, as documented, if and only if that position is behind the pending character and not within a stretch of text read at once; otherwise it reads on |
| VteStops.ReadsPastStop | crates/vte/src/lib.rs:149-183 | Two letters and a performer that asks after one callback: both are read |
| VteStops.ReadsPastPending | crates/vte/src/lib.rs:164-172 | The second byte of a split character is read although the performer has asked to stop since an earlier call |
| VteParser.Parser.ChangeState | crates/vte/src/lib.rs:187-208 | One byte outside Ground is one step of the machine; never entered in Ground, and no character is pending afterwards |
| VteParser.Parser.constructor | crates/vte/src/lib.rs:72-95 | A new parser is the initial machine: Ground, nothing pending, nothing stored |
| VteParser.Parser.AdvanceGround | crates/vte/src/lib.rs:753-821 | The text fast path consumes exactly one stretch, up to and with the next ESC or the first ill-formed run, and leaves what the machine leaves, a cut-off character that the next byte does not continue being reported at once |
| VteParser.Parser.GroundDispatch | crates/vte/src/lib.rs:909-916 | Character `i` of decoded text is executed if it is U+0000..U+001F or U+0080..U+009F and printed otherwise: one callback each, in order |
| VteParser.Parser.DispatchC1 | crates/vte/src/lib.rs:827-853 | A lone C1 byte enters its sequence or string, is dropped if it is 0x9C, and is executed otherwise |
| VteStops.ReadValid | crates/vte/src/lib.rs:765-779 | A stretch of valid text is dispatched character by character, and an ESC right behind it is taken with it |
| VteStops.ReadInvalid | crates/vte/src/lib.rs:780-806 | A read ends with the first ill-formed run, which becomes one replacement character or C1 action |
| VteStops.ReadTruncated | crates/vte/src/lib.rs:806-821 | A character cut off by ESC is reported and the ESC taken with it; one cut off by the end of the chunk stays pending |
| VteParser.Parser.AdvancePartialUtf8 | crates/vte/src/lib.rs:857-905 | Completing a split character from the next chunk consumes no byte beyond it, and agrees with the specified call on every chunk, lossy splits included |
| VteStops.PendingCallIs | crates/vte/src/lib.rs:857-905 | The split character becomes one print, or one replacement character, and takes the bytes up to its end or its error; one more exactly when a byte is lost |
| VteParser.Parser.AdvanceApcStringSlice | crates/vte/src/lib.rs:562-584 | The bulk scan for the first terminator and the step for it equal the run over these bytes |
| VteParser.Parser.AdvanceDcsEscape | crates/vte/src/lib.rs:383-408 | After ESC within a DCS: `\` closes it, C0 and DEL stay, any other byte aborts it, resets the parameters and starts an escape sequence with that byte |
| VteParser.Parser.AdvanceDcsPassthrough | crates/vte/src/lib.rs:340-375 | A payload byte is put, ESC leaves the terminator open, CAN and SUB abort, unhook and execute, 0x9C unhooks, and DEL is dropped |
| VteParser.Parser.AdvanceDcsEntry | crates/vte/src/lib.rs:280-307 | The first byte of a DCS acts on the cleared parameters as in the machine; C0 controls are ignored here, not executed |
| VteParser.Parser.AdvanceDcsIntermediate | crates/vte/src/lib.rs:310-319 | A byte after DCS intermediates is collected, hooks, or makes the string ignored |
| VteParser.Parser.AdvanceDcsParam | crates/vte/src/lib.rs:322-337 | A byte among DCS parameters does what the machine does; a private marker there makes the string ignored |
| VteParser.Parser.AdvanceEsc | crates/vte/src/lib.rs:411-465 | A byte after ESC executes, collects, enters a string or sequence with cleared parameters where the state needs them, or dispatches |
| VteParser.Parser.AdvanceEscIntermediate | crates/vte/src/lib.rs:468-479 | A byte after ESC intermediates is collected or ends the sequence with one dispatch |
| VteParser.Parser.AdvanceCsiEntry | crates/vte/src/lib.rs:211-237 | The first byte of a control sequence acts on the cleared parameters as in the machine |
| VteParser.Parser.AdvanceCsiIgnore | crates/vte/src/lib.rs:240-248 | An ignored sequence executes C0 controls and ends at its final byte without a dispatch |
| VteParser.Parser.AdvanceCsiIntermediate | crates/vte/src/lib.rs:251-259 | A byte after intermediates is collected, dispatches, or makes the sequence ignored |
| VteParser.Parser.AdvanceCsiParam | crates/vte/src/lib.rs:262-277 | A parameter byte of a control sequence does what the machine does to the groups, the pending value and the flags |
| VteParser.Parser.AdvanceOscString | crates/vte/src/lib.rs:482-516 | A payload byte is stored, split on, ignored or dropped for lack of room, and BEL, CAN, SUB and ESC dispatch, as in the machine |
| VteParser.Parser.AdvanceApcString | crates/vte/src/lib.rs:519-545 | On the byte path an APC payload byte below 0x80 is put, one from 0x80 is dropped, and CAN, SUB, ESC and 0x9C end the string |
| VteParser.Parser.Anywhere | crates/vte/src/lib.rs:587-600 | CAN and SUB execute and return to Ground, ESC clears the parameters and starts anew, 0x9C returns to Ground, all else is ignored |
| VteParser.Parser.ActionCsiDispatch | crates/vte/src/lib.rs:603-612 | The pending value ends the last group unless the list is full, which sets the ignore flag; one dispatch with the groups as iteration shows them |
| VteParser.Parser.ActionHook | crates/vte/src/lib.rs:615-623 | The same for a hook, which opens the string |
| VteParser.Parser.ActionCollect | crates/vte/src/lib.rs:626-634 | A byte beyond two is dropped and sets the ignore flag |
| VteParser.Parser.ActionSubparam | crates/vte/src/lib.rs:637-645 | The pending value joins the open group unless the list is full |
| VteParser.Parser.ActionParam | crates/vte/src/lib.rs:648-656 | The pending value closes the open group unless the list is full |
| VteParser.Parser.ActionParamNext | crates/vte/src/lib.rs:659-667 | A digit multiplies by ten and adds, both saturating, unless the list is full |
| VteParser.Parser.ActionOscPut | crates/vte/src/lib.rs:694-707 | A byte is stored if and only if there is room |
| VteParser.Parser.OscEnd | crates/vte/src/lib.rs:710-745 | The final field is closed, the fields cut out by the index table are dispatched once, and buffer and table are emptied |
| VteParser.Parser.ActionOscPutParam | crates/vte/src/lib.rs:671-691 | The index pairs keep tiling the buffer from 0 without gaps, and none is added beyond sixteen |
| VteParser.Parser.ResetParams | crates/vte/src/lib.rs:718-725 | Clears the parameters, intermediates and flags, and touches nothing else |
| VteParams.Params.Push | crates/vte/src/params.rs:62-68 | Ends the open group with the value, whatever the free slots hold, and counts its first slot as written |
| VteParams.Params.Extend | crates/vte/src/params.rs:71-77 | Adds the value to the open group, which iteration already shows, and counts its first slot as written |
| VteParams.Params.Clear | crates/vte/src/params.rs:55-59 | Leaves the empty list of groups, and every slot as it was written |
| VteParams.HeadedAt | crates/vte/src/params.rs:103-116 | Where a group starts, its length is stored, and it is non-empty; the groups tile the values without gaps |
| VteParams.ParamsIter.Next | crates/vte/src/params.rs:103-116 | Yields the groups of the abstract list in order and then ends |
| VteParams.CollectGroups | crates/vte/src/params.rs:43-46 | A whole iteration terminates and is the abstract list of groups |
| VteParams.HeadsAre | crates/vte/src/params.rs:55-77 | After any run of operations, the slots that were written are the starts of all the groups the object has ever held |
| VteParams.Params.ZeroAtSubparamsIff | crates/vte/src/params.rs:9-16 | The documented zero at sub-parameter positions holds if and only if no list that the object has ever held had a group start at one of them |
| VteParams.StaleSlot | crates/vte/src/params.rs:9-16 | Push, push, clear, extend, push: a run after which it does not hold |
| VteParams.ParamsIter.SizeHint | crates/vte/src/params.rs:118-121 | Both bounds are at least the number of groups that remain, and equal to it if and only if none of these has sub-parameters |
| Utf8.FromUtf8Stops | crates/vte/src/lib.rs:777-821 | The valid prefix ends at an ill-formed run of the reported length, or at the start of a cut-off character |
| VteGround.PendingCompleted | crates/vte/src/lib.rs:857-888 | How far the four-byte buffer is read once the pending character is complete, and that exactly the two named splits deviate from the run |
| VteGround.RunApcPayload | crates/vte/src/lib.rs:562-574 | A payload without terminators is forwarded byte for byte, bytes from 0x80 included, and the string stays open |
| VteChunks.ChunkedIsWhole | crates/vte/src/lib.rs:127-147 | For every split of every input into chunks without a lossy boundary, the calls end with the state and callbacks of one run |
| VteChunks.ChunkingIrrelevant | crates/vte/src/lib.rs:127-147 | Any two such splits of the same bytes, one whole call included, end alike |
| VteChunks.AdvanceFaithfulIff | crates/vte/src/lib.rs:857-905 | A call agrees with the run at every length of its chunk if and only if its first bytes are neither of the two lossy continuations of the pending byte |
| VteChunks.ChunksFaithfulIff | crates/vte/src/lib.rs:127-147 | For every list of chunks, all calls agree with the run at every length of their chunks if and only if no boundary is one of the two lossy splits |
| VteHistory.StepInv | crates/vte/src/lib.rs:187-208 | Every step keeps: a pending character only in Ground and a proper prefix of a well-formed one; cleared parameters in Escape, CsiEntry and DcsEntry; all counts and index pairs within bounds |
| VteHistory.RunInv | crates/vte/src/lib.rs:187-208 | The same is kept over whole runs |
| VteHistory.AdvanceAllInv | crates/vte/src/lib.rs:127-147 | The same holds after any chunks, split anyhow |
| VteHistory.CancelReachesGround | crates/vte/src/lib.rs:587-600 | From every reachable state CAN and SUB lead to Ground with no character pending and execute the byte last |
| VteHistory.StepAlike | crates/vte/src/lib.rs:718-725 | Two parsers that differ only in what their state does not read make the same callbacks and go on differing only there |
| VteHistory.RunAlike | crates/vte/src/lib.rs:187-208 | So do they over whole runs, byte by byte |
| VteHistory.AdvanceAllAlike | crates/vte/src/lib.rs:127-147 | And over all later chunks, lossy splits included |
| VteHistory.HistoryIndependence | crates/vte/src/lib.rs:587-600 | Whatever two parsers have read, after a cancel they make identical callbacks on all later chunks |
| VteProtocol.StepProtocol | crates/vte/src/lib.rs:340-408 | Every step's callbacks lead from the phase of the old state to that of the new one |
| VteProtocol.RunProtocol | crates/vte/src/lib.rs:187-208 | So do those of a whole run |
| VteProtocol.ReachableProtocol | crates/vte/src/lib.rs:127-147 | After any chunks, a hook is open exactly in DcsPassthrough and DcsEscape and an APC exactly in ApcString |
| VteProtocol.PhaseIsBalance | crates/vte/src/lib.rs:340-408 | The phases count opening and closing callbacks: at most one string is open |
| VteProtocol.AcceptedLog | crates/vte/src/lib.rs:340-408 | In every log: hooks and unhooks alternate, as do APC starts and ends; only put and execute lie inside a hook; payload lies inside its own string; an abort notice is followed at once by unhook |
| VteProtocol.OpenState | crates/vte/src/lib.rs:340-408 | While a DCS stays open, an escape is pending exactly when the payload ends with ESC and any number of C0 or DEL bytes |
| VteProtocol.ClosedNormallyIff | crates/vte/src/lib.rs:340-408 | A closed DCS reports no abort if and only if it ended by 0x9C with no escape pending, or by ESC, C0 or DEL bytes, and a backslash |
| VteStrings.BytePathIsErasure | crates/vte/src/lib.rs:519-584 | On every input the bulk and the byte entry end in the same state, and the byte path's callbacks are the others without APC bytes from 0x80 |
| VteStrings.NoiseInSequence | crates/vte/src/lib.rs:211-337 | Within any sequence, C0 controls are executed, in the introduction of a device control string dropped, and DEL and bytes from 0x80 but 0x9C are dropped; nothing else changes |
| VteStrings.SequenceCutOff | crates/vte/src/lib.rs:587-600 | CAN and SUB are executed and end a sequence, ESC starts anew with nothing collected, 0x9C ends it; directly behind ESC, ESC and 0x9C are dropped |
| VteStrings.ApcPathsAgreeIff | crates/vte/src/lib.rs:519-584 | On an APC payload the two agree if and only if it is ASCII |
| VteStrings.NoiseIsTransparent | crates/vte/src/lib.rs:211-479 | Such bytes inserted anywhere inside escape sequences, control sequences and introductions leave the final state and all other callbacks as they are, and the executes come at their places |
| VteText.TableIsPrefixesOfEncodings | crates/vte/src/lib.rs:777-821 | A byte sequence begins a row of the table if and only if it begins the encoding of some character |
| VteText.DecodeFirstMeaning | crates/vte/src/lib.rs:777-821 | The decoder finds the encoded character, or that the text begins one, or the maximal ill-formed subpart of section 3.9 of the Unicode Standard |
| VteText.EncodeAllInjective | crates/vte/src/lib.rs:777-781 | No two strings have the same encoding, so what is decoded is unambiguous |
| VteText.GroundDecodes | crates/vte/src/lib.rs:753-853 | Any text without ESC and string introducers becomes one callback a character, one U+FFFD an ill-formed subpart, one execute a lone C1 byte but 0x9C; a cut-off character stays pending |
| VteText.EncodedTextRoundTrip | crates/vte/src/lib.rs:909-916 | Encoding and parsing any string without ESC gives it back, one print or execute a character |
| VteText.PrintableTextPrints | crates/vte/src/lib.rs:909-916 | Encoding and parsing a printable string prints it |
| VteText.TextIsReported | crates/vte/src/lib.rs:753-821 | Encoding and parsing any string without ESC makes one callback for each character, in order: an execute for U+0000..U+001F and U+0080..U+009F, and a print for all others |
| VteOsc.OscDelivers | crates/vte/src/lib.rs:482-516 | Any payload, behind ESC `]` or 0x9D, leads to one dispatch with exactly the first sixteen fields of the payload split at `;`, without ignored controls and cut where the buffer is full, and with the right terminator flag |
| VteOsc.SplitJoin | crates/vte/src/lib.rs:671-691 | Splitting joined fields gives back the fields |
| VteOsc.FittingIff | crates/vte/src/lib.rs:694-707 | A payload is kept whole if and only if there is still room before its last byte; separators take none |
| VteOsc.OscRoundTrip | crates/vte/src/lib.rs:731-745 | One to sixteen legal fields that fit the buffer are dispatched as they were sent, with either introducer |
| VteCsi.CsiCharacterisation | crates/vte/src/lib.rs:603-667 | Any printed control sequence, with either introducer, yields one dispatch: the first 32 values in their groups, each min(65535, its decimal value) for digits of any length, two collected bytes, and the ignore flag exactly when there were more of either |
| VteCsi.DecimalValue | crates/vte/src/lib.rs:659-667 | The decimal digits of a number have that value |
| VteCsi.CsiRoundTrip | crates/vte/src/lib.rs:211-277 | Up to the limits, printed parameters, sub-parameters, marker, intermediates and final byte come back unchanged |
| VteDcs.TwinRun | crates/vte/src/lib.rs:280-337 | A device control string reads its parameters and intermediates as a control sequence does |
| VteDcs.DcsCharacterisation | crates/vte/src/lib.rs:280-337 | Any printed introduction, with either introducer, yields one hook: the first 32 values in their groups, saturated, two collected bytes, and the ignore flag exactly when there were more; the string is then open |
| VteDcs.DcsRoundTrip | crates/vte/src/lib.rs:615-623 | Up to the limits, the printed values come back in the hook |
| VteDcs.DcsDelivers | crates/vte/src/lib.rs:340-375 | A whole device control string, with either introducer: the hook, one put for each payload byte below DEL in order, nothing for the others, and the unhook behind 0x9C; CAN and SUB report an abort first and are executed last |
| VteDcs.DcsEscapeDecides | crates/vte/src/lib.rs:377-408 | Behind ESC within the string, C0 controls are executed and DEL dropped; `\` closes the string, and any other byte aborts it and is then read as behind a new ESC |
| VteEsc.EscCharacterisation | crates/vte/src/lib.rs:411-479 | ESC, intermediates and a final byte yield one dispatch with the first two intermediates, and the flag exactly when there are more, if and only if the final byte does not open a string or a longer sequence |
| VteApc.ApcDelivers | crates/vte/src/lib.rs:519-584 | A whole application program string, with either introducer, entry point and terminator: one start, one put for each payload byte that the entry point forwards, one end; CAN and SUB are executed; ESC begins an escape sequence with nothing collected, the others lead to Ground |
| VteApc.IgnoredStringIsSilent | crates/vte/src/lib.rs:411-465 | A start of string or privacy message, with any of its four introducers, reports nothing but a CAN or SUB that ends it |
| VteShapes.ShapedIsPrinted | crates/vte/src/lib.rs:211-277 | A marker at most, digits, colons and semicolons in any order, and intermediates are always the printed form of a parameter list |
| VteShapes.CsiDispatchesIff | crates/vte/src/lib.rs:211-277 | A control sequence with any bytes between introducer and final byte is dispatched if and only if they are of that shape, with what is printed there; otherwise it reports nothing; it is over either way |
| VteShapes.UnshapedDcsIsSilent | crates/vte/src/lib.rs:280-337 | A device control string whose introduction is not of that shape reports nothing up to its terminator |
| Tarjan.ComponentFound | scripts/plan_corpus/dag.py:794-805 | When a node's low link is its index, the nodes above it on the stack are exactly its strongly connected component |
| Tarjan.PopKeeps | scripts/plan_corpus/dag.py:794-805 | Popping a component keeps the invariant of the search |
| Tarjan.Search.StrongConnect | scripts/plan_corpus/dag.py:783-805 | A call explores everything its node reaches and leaves a low link that names the lowest stack node reached; it terminates on every graph |
| Tarjan.Search.PopDown | scripts/plan_corpus/dag.py:795-802 | The inner loop pops exactly the nodes down to the root of the component |
| Tarjan.Search.PopComponent | scripts/plan_corpus/dag.py:794-805 | The component is popped, and reported only if it has more than one node or a self-loop |
| Tarjan.SearchComplete | scripts/plan_corpus/dag.py:808-812 | When the search is over, the reported components cover exactly the nodes on cycles |
| Tarjan.BuildAdjacency | scripts/plan_corpus/dag.py:772-775 | The graph that is searched has exactly the edges that leave the given nodes |
| Tarjan.CyclicIff | scripts/plan_corpus/dag.py:803-805 | A component passes the filter if and only if its nodes lie on a cycle |
| Tarjan.TarjanScc | scripts/plan_corpus/dag.py:765-812 | The result is the strongly connected components that contain a cycle: maximal, disjoint, without repetitions, covering exactly the nodes on cycles, empty if and only if the graph is acyclic, and in reverse topological order |
| Tarjan.CyclesAsDocumentedIff | scripts/plan_corpus/dag.py:1077-1089 | The reported components are those of the dependencies alone, as the finding says, if and only if every edge on a cycle has a chain of dependencies between its ends |
| Tarjan.SupersedesClosesCycle | scripts/plan_corpus/dag.py:1077-1089 | A dependency and a supersedes edge back: a cycle is reported, and the dependencies have none |
| Redundancy.RedundantIff | scripts/plan_corpus/dag.py:1757-1784 | On an acyclic graph, an edge is redundant if and only if a walk of two or more edges joins its ends |
| Redundancy.ReductionPreservesReach | scripts/plan_corpus/dag.py:1735-1784 | Removing all redundant edges at once keeps every reachability of an acyclic graph |
| Redundancy.ReductionIsLeast | scripts/plan_corpus/dag.py:1735-1784 | No remaining edge can go: every subgraph with the same reachability contains the reduced graph |
| Redundancy.ReductionKeepsReachIff | scripts/plan_corpus/dag.py:1735-1784 | On every graph: removing all redundant edges at once keeps reachability if and only if no node on a cycle has a second edge, and no node off the cycles has two edges into one cycle without one to a node above it |
| Redundancy.CyclicReductionLosesReach | scripts/plan_corpus/dag.py:1757-1784 | A graph with a cycle on which removing the findings loses a dependency |
| Redundancy.FindLongWay | scripts/plan_corpus/dag.py:1763-1779 | The breadth-first search reaches the target if and only if the edge is redundant, and the depth it reports is the least length of such a walk, at least two |
| Redundancy.ClassifyRedundantDependency | scripts/plan_corpus/dag.py:1735-1801 | Exactly the redundant dependency edges are reported, in edge order |
| Redundancy.RemovingFindingsReduces | scripts/plan_corpus/dag.py:1735-1801 | Removing what is reported is the transitive reduction |
| Redundancy.DepthTwoIff | scripts/plan_corpus/dag.py:1763-1784 | The depth of a finding is two if and only if one node lies between its ends |
| Redundancy.DocumentedDepthIff | scripts/plan_corpus/dag.py:1736-1739 | The shortest other chain of a redundant edge has the documented three edges or more if and only if no node lies between its ends |
| Redundancy.FindingsAreDocumentedIff | scripts/plan_corpus/dag.py:1735-1801 | All findings are as documented if and only if no dependency is the long side of a triangle |
| Redundancy.DepthTwoIsReported | scripts/plan_corpus/dag.py:1780-1784 | Three nodes, two edges and the edge across: reported, although no chain of three edges exists |
| Redundancy.TransitiveSuccessors | scripts/plan_corpus/dag.py:1100-1116 | The result is exactly the nodes reachable from the start, itself included, along edges of every kind |
| Redundancy.SuccessorsAsDocumentedIff | scripts/plan_corpus/dag.py:1100-1116 | The result is the documented set, reached by dependencies alone, if and only if every supersedes edge that leaves that set leads back into it |
| Redundancy.SupersededIsSuccessor | scripts/plan_corpus/dag.py:1100-1116 | A dependency and a supersedes edge behind it, which make one node too many |
| Chains.Search.Dfs | scripts/plan_corpus/dag.py:1896-1909 | The search keeps a longest simple path to a childless blocked node among those that extend its argument, on cyclic graphs too, and replaces an earlier one only by a longer one |
| Chains.DeepestBlockedChain | scripts/plan_corpus/dag.py:1888-1912 | The chain is a simple path from the start to a childless blocked node that no other exceeds, or just the start if there is none |
| Chains.DeepestEnds | scripts/plan_corpus/dag.py:1888-1912 | The chain is a simple path from the start, and ends in a queued, researched or not started plan without children if and only if there is one at the end of some simple path |
| Chains.BuildAdjacency | scripts/plan_corpus/dag.py:1881-1885 | A node's children are exactly the targets of its edges |
| Chains.ChainAsDocumentedIff | scripts/plan_corpus/dag.py:1881-1920 | The chain is a deepest one along dependencies alone if and only if all its steps are dependencies and no longer chain of dependencies ends in a node that has only edges of another kind |
| Chains.SupersededIsBlocker | scripts/plan_corpus/dag.py:1881-1920 | One supersedes edge to a blocked plan: the chain follows it |
| WindowsQuoting.CommandLine.AppendQuoted | crates/portable-pty/src/cmdbuilder.rs:702-745 | The nested loops append the quoted form of the argument: a non-empty argument without space, tab, newline, vertical tab and quote unchanged, and any other longer and between quotes |
| WindowsQuoting.EscapedIsRead | crates/portable-pty/src/cmdbuilder.rs:718-743 | An escaped argument and its closing quote are read back as the argument, whatever its backslashes and quotes |
| WindowsQuoting.QuotedIsRead | crates/portable-pty/src/cmdbuilder.rs:702-745 | One quoted argument is read back whole and the reader stops right behind it |
| WindowsQuoting.QuotedIff | crates/portable-pty/src/cmdbuilder.rs:703-714 | An argument is put between quotes if and only if it is empty or has a space, tab, newline, vertical tab or quote |
| WindowsQuoting.ArgumentsRoundTrip | crates/portable-pty/src/cmdbuilder.rs:686-696 | Splitting the printed arguments gives back every list of NUL-free arguments, empty ones included |
| WindowsQuoting.CmdLine | crates/portable-pty/src/cmdbuilder.rs:668-698 | Refused if and only if an argument has a NUL; otherwise the arguments are read back from behind the program name, and a line of bare words is written as it is, with one space before each |
| Frontmatter.ExtractFrontmatterSlice | scripts/verify_roadmap/patcher.py:46-73 | Finds the first fence behind one in the first line, and reports none only if there is none |
| Frontmatter.ReassembleRoundTrip | scripts/verify_roadmap/patcher.py:76-87 | Splicing keeps everything outside the fences, and the result has exactly the new lines for its frontmatter if and only if they have no fence |
| Frontmatter.SkipBlock | scripts/verify_roadmap/patcher.py:188-209 | Stops at the first position behind the anchor whose next content is not indented |
| Frontmatter.InsertKey | scripts/verify_roadmap/patcher.py:156-215 | Adds one line, behind the whole block of the first anchor or at the end, and changes nothing else |
| Frontmatter.InsertionPointIff | scripts/verify_roadmap/patcher.py:156-215 | The place is the end without an anchor line; otherwise it is behind the first one, its indented lines and the blank lines among them, but before blank lines that nothing indented follows |
| Frontmatter.InsertTearsNoBlock | scripts/verify_roadmap/patcher.py:156-215 | The new line tears no indented block: the next content behind it is not indented |
| Frontmatter.InsertTearsValueIff | scripts/verify_roadmap/patcher.py:156-215 | The new line separates a key above it from more of its value if and only if the next content there is neither indented nor a key |
| Frontmatter.RemainingHasNoKey | scripts/verify_roadmap/patcher.py:110-140 | After a removal no line has the key |
| Frontmatter.RemoveKey | scripts/verify_roadmap/patcher.py:110-140 | What remains is exactly the lines, in order, that are no line of the key and not separated from one above by blank and indented lines only |
| Frontmatter.RemoveUndoesInsertIff | scripts/verify_roadmap/patcher.py:110-215 | Removing a key that was just inserted gives back the frontmatter if and only if there was no such key before and no blank line follows the new one |
| Frontmatter.RemoveTakesMore | scripts/verify_roadmap/patcher.py:110-215 | A blank line that goes with the removed key, and a key that was there before and goes too |
| Frontmatter.RemovalAsDocumentedIff | scripts/verify_roadmap/patcher.py:110-140 | What goes is everything from the key to the next key, as documented, if and only if no line that is neither indented nor a key ends a removed block |
| Frontmatter.ListStays | scripts/verify_roadmap/patcher.py:110-140 | A list item at the start of its line stays without its key |
| PatchProtocol.PatchKeepsOutside | scripts/verify_roadmap/patcher.py:422-446 | A patch changes no line outside the fences |
| PatchProtocol.DoKeepsSerialIff | scripts/verify_roadmap/patcher.py:395-493 | Any step of any patcher or writer, recheck and replace apart included, keeps the world serial if and only if it is no replace of another content than was scanned: the file is the replay of all writes, and each patch was applied to exactly the content that was scanned for it |
| PatchProtocol.RunsAreSerialIff | scripts/verify_roadmap/patcher.py:322-493 | Over all runs of all steps, deletions and unpatchable writes included: every patch was applied to exactly what was scanned for it, and the file is the replay of all writes, if and only if every replace that takes effect finds that content |
| PatchProtocol.DoKeepsFileIff | scripts/verify_roadmap/patcher.py:395-493 | After any step of any patcher or writer the file is still the replay of all writes if and only if the step is no replace that writes something else than patching the file it finds would give |
| PatchProtocol.NoWriteIsLostIff | scripts/verify_roadmap/patcher.py:322-493 | Over all runs of all steps: the file is at all times the replay of all writes so far if and only if every replace that takes effect is harmless in that sense |
| PatchProtocol.SecondCheck | scripts/verify_roadmap/patcher.py:448-479 | A patcher that has built its patch goes on only if the file is what it read; otherwise it refuses or fails, and writes nothing |
| PatchProtocol.WritesWereChecked | scripts/verify_roadmap/patcher.py:322-493 | In every run of all steps, no patch is written whose patcher did not find the file a second time as it was scanned |
| PatchProtocol.RunsAreSerial | scripts/verify_roadmap/patcher.py:322-493 | With recheck and replace in one step, in every interleaving no write is lost: the file is the successful operations applied in the order of their replaces, each once |
| PatchProtocol.WriteBeforeReplace | scripts/verify_roadmap/patcher.py:455-479 | With recheck and replace apart, a write between them is lost unless patching it gives the same content |
| PatchProtocol.TwoPatchersRace | scripts/verify_roadmap/patcher.py:448-479 | Two patchers that both recheck before either replaces: the second patch wins, and the run is serial if and only if the first one changed nothing |
| AutoFix.SoloPatchIsProtocolRun | scripts/verify_roadmap/patcher.py:322-493 | An undisturbed patch, refusals included, is the run of the protocol with no one else moving |
| AutoFix.Disk.ApplyPatch | scripts/verify_roadmap/patcher.py:322-493 | On a disk no one else writes to, a patch is refused for the first of its reasons that applies and otherwise replaces the file by the patched content |
| AutoFix.Disk.ApplyFixes | scripts/verify_roadmap/auto_fix.py:367-529 | Nothing is done if a finding is unsafe; each fix has exactly the result that the files before the batch and its earlier edits call for, and is refused as modified only if its file's preimage was wrong from the start; every file gets its edits in order |
| BugEntries.SegmentsAre | scripts/plan_corpus/bug_markers.py:248-296 | Dividing a file into entries and other lines loses nothing, and bodies are as long as they can be |
| BugEntries.SegmentsUnique | scripts/plan_corpus/bug_markers.py:260-274 | It is the only division of that kind |
| BugEntries.ParseBugEntries | scripts/plan_corpus/bug_markers.py:248-296 | The index-driven loop yields the entries of that division, in order, with the lines of their headers |
| BugEdits.ApplyToFile | scripts/plan_corpus/bug_validators.py:338-363 | Carries out the edits from the last header to the first, and reports a change if and only if there was one |
| BugEdits.SortDistinct | scripts/plan_corpus/bug_validators.py:341-342 | Sorting the edits of different entries leaves them strictly descending, whatever their order |
| BugEdits.SortKeeps | scripts/plan_corpus/bug_validators.py:341-342 | Sorting loses and adds no edit, and keeps the order of those for the same header |
| BugEdits.EditsMark | scripts/plan_corpus/bug_validators.py:338-363 | All edits of a file together: each named entry gets its line at the end of its body unless it has the phrase, no insertion shifts another, every other line stays, and the file divides into entries as before |
| BugRepeats.RepeatedEditsIff | scripts/plan_corpus/bug_validators.py:321-366 | The same edits applied again change nothing where no edit that takes effect has another one below it, and where no header is indented, only there |
| BugRepeats.InsertsAgain | scripts/plan_corpus/bug_validators.py:321-366 | Two entries of one line each: applying their edits again inserts a line again |
| BugDrift.FoundPlaces | scripts/plan_corpus/bug_markers.py:299-308 | Every entry stands at a header and no two at the same place |
| BugDrift.ParseBugTrackerDir | scripts/plan_corpus/bug_markers.py:299-308 | The entries of all files, in file order and then in line order |
| BugDrift.CollectClaims | scripts/plan_corpus/bug_validators.py:184-199 | A plan is among those of a bug if and only if it claims it, as often as it does, and the first one is that of the first claim |
| BugDrift.PlansForConcat | scripts/plan_corpus/bug_validators.py:184-199 | The plans of a bug are collected claim by claim, in scan order |
| BugDrift.ClaimedInOrder | scripts/plan_corpus/bug_validators.py:184-199 | The claimed bugs are reported in the order of their first claims |
| BugDrift.ClaimedAre | scripts/plan_corpus/bug_validators.py:184-199 | The claimed ids are those that some plan lists, without repetitions |
| BugDrift.IndexById | scripts/plan_corpus/bug_validators.py:203-203 | An id stands for its last entry |
| BugDrift.FindSupersedeDrift | scripts/plan_corpus/bug_validators.py:162-268 | The report lists the claimed, open, unmarked bugs with their first plan; the claimed bugs whose marker names none of their plans; and the marked entries that nobody claims |
| BugConvergence.MissingMembers | scripts/plan_corpus/bug_validators.py:241-251 | The report lists each missing bug once, at the place of its last entry, and nothing else |
| BugDrift.MisdirectedMembers | scripts/plan_corpus/bug_validators.py:209-240 | A bug is listed as an orphan of direction A if and only if it is claimed, open and marked, and its marker names none of its plans |
| BugDrift.UnclaimedMembers | scripts/plan_corpus/bug_validators.py:253-266 | A place is listed as an orphan of direction B if and only if a marked entry that nobody claims stands there |
| BugReports.DriftIff | scripts/plan_corpus/bug_validators.py:203-240 | A bug lacks its marker if and only if it is claimed and its last entry is open and has no marker line; it is misdirected if and only if there is such a line and no claim is by the plan named there |
| BugReports.UnclaimedIff | scripts/plan_corpus/bug_validators.py:253-266 | An entry is unclaimed if and only if it has a marker line and no plan claims its bug |
| BugReports.MissingReported | scripts/plan_corpus/bug_validators.py:203-251 | Exactly the bugs that lack their marker are reported as missing, each at its last entry and with its first claim |
| BugReports.MisdirectedReported | scripts/plan_corpus/bug_validators.py:209-240 | Exactly the misdirected bugs are reported, with the target that is read and all plans that claim them |
| BugReports.UnclaimedReported | scripts/plan_corpus/bug_validators.py:253-266 | Exactly the unclaimed entries are reported, with their target or a note that there is none to read |
| BugReports.ReportedInOrder | scripts/plan_corpus/bug_validators.py:203-251 | The reports follow the order of the claims |
| BugReports.TargetIs | scripts/plan_corpus/bug_markers.py:85-87 | The target is that of the first marker line that has one |
| BugReports.TargetNameIs | scripts/plan_corpus/bug_validators.py:209-226 | The plan that a target names is its last part before any slashes at its end |
| BugConvergence.PlanIsWell | scripts/plan_corpus/bug_validators.py:297-318 | The planned edits name headers of entries, no two the same one |
| BugRepair.PlanAutoFixes | scripts/plan_corpus/bug_validators.py:297-318 | One edit for each missing marker, at its header and naming its first plan, and none for orphans |
| BugRepair.MarkerNamesPlanIff | scripts/plan_corpus/bug_validators.py:82-91 | The name read back out of an inserted marker is the plan's if and only if it has no white space, comma or backtick |
| BugRepair.Disk.ApplyPlannedEdits | scripts/plan_corpus/bug_validators.py:321-366 | Every file is repaired by its own edits, and the result lists exactly the files that changed, each once, in the order of their first edits |
| BugConvergence.RoundKeepsEntries | scripts/plan_corpus/bug_validators.py:321-366 | A round keeps every entry, its header and the order, and adds one marker to exactly the bodies that lack one and do not have the phrase |
| BugConvergence.StillMissingIff | scripts/plan_corpus/bug_validators.py:203-268 | After a round a bug lacks its marker if and only if it did before and its body has the phrase |
| BugConvergence.MisdirectedIff | scripts/plan_corpus/bug_validators.py:203-268 | After a round a claimed bug is an orphan if and only if it was one, or the inserted line is read as naming none of its plans |
| BugConvergence.UnclaimedKept | scripts/plan_corpus/bug_validators.py:254-266 | A round neither creates nor removes a marker that nobody claims |
| BugConvergence.RepairRound | scripts/plan_corpus/bug_validators.py:297-366 | Scanning, planning and applying on the disk is one round |
| BugConvergence.OneRoundConverges | scripts/plan_corpus/bug_validators.py:297-366 | With clean plan names and no stray phrase, one round leaves no marker missing and creates no orphan |
| BugConvergence.RepairIsFixpoint | scripts/plan_corpus/bug_validators.py:321-366 | A second round changes nothing, whatever the first could not repair |

## Left out

- The `ansi` module, the terminal grid, the multiplexer and all other crates are not part of this model.
- `memchr` is the first index of a byte, and `str::from_utf8` is its documented result over the byte-sequence table of the Unicode Standard; their implementations are not modelled.
- The `no_std` OSC buffer and the unsafe casts of slices: one buffer cap and ordinary sequences; a buffer of another size is not modelled.
- `Perform::terminated` is a function of the callbacks so far; a performer that answers from other state is not modelled.
- Performers that override `apc_put_bulk` may treat the bulk call differently from single bytes.
- Reports of findings are edges, entries and outcomes; their texts, severities and evidence chains are left out.
- The recursion limit of Python: searches over very deep graphs end with an error in the source.
- The order in which Python iterates over sets: `InSomeOrder` picks one, and the contracts hold for the order it picks.
- How the program name itself is parsed (the C rules read it differently), the search for it in the path, and the environment.
- `rename_key`, `replace_value`, `remove_list_item`: regular expressions over single lines, which would add easy members; a patch is any edit of the frontmatter lines.
- Regular expressions and YAML are not modelled: lines are classified by what the expressions find in them. A marker whose target or colon is on the next line is not modelled, nor a plan name with a line break, which would split the inserted line.
- Hash collisions (a hash stands for the content), a crash or an I/O error in the middle of a file operation, backups and the audit log.
- The paths below which files are looked for, unreadable files, and the parsing of `supersedes:` lists: claims are given as pairs of a bug and a plan in scan order.
- BugRepeats.RepeatedEditsIff: with indented headers only one direction is stated, because a walk from a stale line number does not stop at such a header and can meet the phrase by chance.
- Severity, title and other fields of a bug entry, which the repair does not read.
