# Verification model of tui-lab's engines

This project models the parts of the terminal laboratory that turn an adversarial
stream of output into ordered evidence, and proves what callers rely on:

- **Line history and frame collector** (`LineText`, `LineEngine`, `LineHistory`,
  `FrameCapture`, `PipeStreams`). Output arrives in arbitrary chunks, is folded into
  a bounded line history with one live line, and every screen edge is numbered and
  kept in a 64-slot ring. Anchored waits serve the ring; the frame collector walks a
  coalesced burst edge by edge. The child and the clock (`ChildProcess`) are a class
  whose methods choose their results freely, so chunks may land between any two pumps;
  it logs every look and every nap, and the wait loops are specified by that log: what
  had arrived at each look, and when.
- **Causal waits** (`WaitConditions`, `CausalWaits`, `EventClock`, `RawRing`,
  `ShellMarks`). Capture a baseline, act, wait anchored to the baseline; the bounded
  logs and the raw ring are suffixes of the unbounded trace.
- **Codecs and framers** (`ControlFraming`, `Base64`, `InputReports`,
  `InputDispatch`, `Calendar`, `XmlEscape`, `Utf8`, `ScreenSearch`).
- **Audit safety and identity** (`AuditSchedule`, `AuditSafety`, `FindingIdentity`,
  `FindingCompare`). A table-driven scheduler with policies, restart gaps and abort as
  a producer of traces, and the identity on which baseline comparison rests.

Objects that the program updates in place are classes whose `Valid()` ties their
fields to a ghost record of everything received; their methods are proved against
functions of that record, and the properties are lemmas about those functions.
`Common` holds windows, concatenation and substring search.

## Where the code and its documentation part

The model follows the code. Where a documented property fails, the lemma named here
gives the exact condition under which it holds.

- A chunk that ends between `\r` and `\n` loses the line before it
  (`LineText.StreamEqualsBatch`, `LineHistory.SplitReturnLosesALine`).
- Edge snapshots and waits drop one scrollback row while a line is pending
  (`LineHistory.ShownDropsARow`).
- Past 64 edges the collector skips edges; it is exact if and only if it never falls
  further behind (`FrameCapture.BurstWalk`).
- A stream's line store is documented to continue only its own unterminated line. It
  starts a new line behind an unfinished one whose chunk held a newline, because the
  flag is not set again (`PipeStreams.StoreIsOwnSplit`,
  `PipeStreams.UnfinishedLineIsMisfiled`). The fused history is documented to mirror
  the line backend; it does while no line with something to show ends in `\r\n`
  (`PipeStreams.FusedMirrorsLines`, `PipeStreams.FusedLosesReturnedLine`).
- The framer searches a newline and `%end` followed by the block's number, where tmux
  writes the block's time first, and no newline of its own in a block without output.
  A well-formed block is framed as its header and output if and only if it has output,
  its number is a prefix of its time, and no output line after the first starts like
  that footer (`ControlFraming.RecognisedBlocks`, `ControlFraming.RecognisableLines`;
  failing blocks in `ControlFraming.RealBlockIsMissed` and
  `ControlFraming.EmptyBlockIsMissed`).
- A commit edge's snapshot is documented to reflect its chunk's final state. It is taken
  behind the last newline and before the eviction, so it does if and only if the chunk
  evicts nothing and no distinguishable live line stands behind that newline, or one
  evicted row and one live line cancel on a screen of more than 10 000 equal rows
  (`LineHistory.NewestEdgeIsLive`). Once 10 000 lines are retained, every commit evicts,
  and on a screen of at most that many rows the newest commit edge never shows the final
  state (`LineHistory.FullHistoryIsStale`).
- The collector is documented to say that the process exited; the state query that finds
  out pumps once more, and edges that come with that pump stay behind. Those are the only
  ones (`FrameCapture.CaptureFrameSequence`).
- A pipe byte from 0x80 on becomes a character of two bytes, and cutting a line to the
  width panics inside it. A line is committed if and only if the width splits no
  character of it, in the store as in the fused history (`PipeStreams.StoreCommits`,
  `PipeStreams.FusedCommitsMeaning`); lines that panic are in
  `PipeStreams.SplitCharacterPanics`.
- The 1005 mouse encoding is documented as UTF-8; it is so if and only if both
  coordinates are below 95 (`InputReports.Utf8ReportIsUtf8`). Characters that share a
  named key's code come back as that key (`InputReports.AmbiguousKeys`).
- Bracketed paste hands on what was pasted if and only if that does not hold the closing
  bracket (`InputDispatch.PasteReadsBack`).
- Instance ids are documented as unique per rule and target; they are among findings with
  a target and among those without (`FindingIdentity.InstanceIdsTell`).
- Alt is documented as an escape prefix; a key gets it if and only if Ctrl does not turn
  it into a control byte and it is no navigation key (`InputDispatch.AltPrefix`).
- `event_state` does not adopt bells and titles the parser has counted. A baseline taken
  from it makes `Bell` and `AnyActivity` waits exact if and only if none is waiting
  (`CausalWaits.BellAnchorIsExact`, `CausalWaits.ActivityAnchorIsExact`); a stale
  baseline is reached in `CausalWaits.StaleBaseline`. An unanchored wait is documented to
  react to the next bell after it begins; the same condition at entry decides
  (`CausalWaits.UnanchoredIsExact`).
- `CommandDone` without an anchor is documented to wait for a command that starts and
  ends after entry; it needs a new end if and only if no command is finished at entry,
  and a new start if and only if none has ever started
  (`CausalWaits.UnanchoredDoneIsStale`, `CausalWaits.OldCommandSatisfies`). Anchored, a
  finish edge is lost while a newer command runs
  (`CausalWaits.FinishIsLostToANewerCommand`).
- `CommandOutput` is documented to ignore an earlier command's token; it does if and only
  if neither the grid nor the history holds the text when the command starts
  (`CausalWaits.OutputIsNew`, `CausalWaits.OldTokenSatisfies`). The text is documented to
  be in the command's output: it is when the wait is met while the command still runs
  (`CausalWaits.OutputWhileRunning`), but the prompt's echo behind the end meets it too
  (`CausalWaits.LateEchoSatisfies`).
- `changes_since` is documented as "at or after"; the code's filter is strictly after,
  which agrees if and only if the number is not in the log (`EventClock.SinceIsStrict`).
- `full` is documented to run every included driver; when mutation is allowed it runs
  those with a group, which leaves out the seven observational readers
  (`AuditSafety.AllowedFullRunsGroups`, `AuditSafety.ShippedTable`).
- The isolating policy is documented to give each mutating driver a fresh application. It
  does if and only if every mutating member opens a group
  (`AuditSchedule.FreshnessIsTheTables`); a second one in a group runs on what the first
  left (`AuditSchedule.SecondMutatorIsNotFresh`). The shipped table has none.
- Invasive profiles are documented as refused when isolation is requested and
  impossible; the contract profile and the static ones are dispatched first
  (`AuditSafety.RefusedUnlessContract`). Such a run touches nothing invasively if and only
  if the table gates `full` and the check of a loaded contract is harmless
  (`AuditSafety.ImpossibleIsolationIsSafe`). The contract-armed entry point, documented as
  safe, skips the policy check: a run is safe if and only if the profile reaches no
  invasive row (`AuditSafety.UncheckedEntryIsUnsafe`), which on the shipped table leaves
  out `full` and every invasive profile (`AuditSafety.ShippedUncheckedEntry`).
- A finding's identity is documented as rule, category and targets; the sorted parts
  do not say which is which (`FindingIdentity.RolesAreForgotten`).
- A search hit's offset is documented as one in the row; it is one in the lower-cased
  row. All hits of a row are right if and only if every character keeps its width in
  lower case (`ScreenSearch.OffsetsMeanTheRow`); rows with a character that shrinks and
  one that grows are in `ScreenSearch.OffsetsCanMissTheRow`.

## Model

| member | source | states |
|---|---|---|
| `LineText.StreamEqualsBatch` | src/backend/line_cli.rs:149-181 | streaming a chunk list equals the batch reading of the whole text if and only if no boundary parts `\r` from `\n` behind a nonempty line; otherwise a committed line differs for good |
| `LineText.LookaheadIsPending` | src/backend/line_cli.rs:153-181 | on one uncut text the character loop computes the batch reading: each line is its segment after the last bare `\r`, the live line is the tail |
| `LineText.SegmentsRejoin` | src/backend/line_cli.rs:138-141 | the batch reading's segments and tail, rejoined with newlines, are the text |
| `LineText.SegmentsAreLines` | src/backend/line_cli.rs:138-141 | no segment of the batch reading holds a newline |
| `LineText.TailMeaning` | src/backend/line_cli.rs:138-148 | the live line's segment is what follows the last newline |
| `LineText.AfterLastCrMeaning` | src/backend/line_cli.rs:138-148 | a bare `\r` restarts the line: what counts is what follows the last one |
| `LineText.LossyCutLosesALine` | src/backend/line_cli.rs:167-174 | a boundary between `\r` and `\n` behind a nonempty line makes the two readings disagree on a committed line |
| `LineEngine.PtyLineBackend.constructor` | src/backend/line_cli.rs:104-134 | a new backend shows the engine that has received nothing, quiet since now |
| `LineEngine.PtyLineBackend.RetainEdgeSnapshot` | src/backend/line_cli.rs:251-268 | the ring after a new edge is the ring of the full edge history with that edge's screen |
| `LineEngine.PtyLineBackend.IngestChar` | src/backend/line_cli.rs:154-181 | one turn of the character loop carries history, live line, bells, edges and ring one character further |
| `LineEngine.PtyLineBackend.EvictOldest` | src/backend/line_cli.rs:198-204 | what stays are the newest 10 000 lines and the evicted count is the rest |
| `LineEngine.PtyLineBackend.Ingest` | src/backend/line_cli.rs:149-209 | a chunk takes the whole state to the engine that has received that chunk as well; the content counter moves by one and the change instant to now exactly when the chunk makes an edge |
| `LineEngine.ContentMovesWithEdges` | src/backend/line_cli.rs:182-208 | content moves, by one, exactly with a chunk that makes an edge |
| `LineEngine.PtyLineBackend.Pump` | src/backend/line_cli.rs:225-247 | one look at the child: every chunk that has arrived is delivered in order, the state is a function of the full list, and the output and change instants move exactly with output and content |
| `LineEngine.PtyLineBackend.State` | src/backend/line_cli.rs:512-515 | the observed screen is the rendered split of the state after one more look, with the process flag of that look |
| `LineEngine.PtyLineBackend.Serve` | src/backend/line_cli.rs:758-781 | an anchored wait gets the screen of edge anchor+1 while at most 64 edges lie past the anchor, and the live screen otherwise |
| `LineEngine.PtyLineBackend.Wait` | src/backend/line_cli.rs:738-866 | looks at the child, and again after every 15 ms and nothing else, up to the first look at which the condition holds or the budget is spent; whether it holds is told by what had arrived and when: some row shows the text, an edge, bell or chunk lies past the anchor or the entry, the process is gone, and a whole quiet interval lies behind the newest change or output; the reason is the condition's; an edge already past the anchor is met at the first look |
| `LineEngine.VerdictMeans` | src/backend/line_cli.rs:782-838 | the loop's match, on its counters and instants, is that meaning for every condition |
| `LineEngine.ChangedAtIsNewest` | src/backend/line_cli.rs:198-208 | the change instant is that of the newest look that found an edge, or the one before the wait |
| `LineEngine.RingServes` | src/backend/line_cli.rs:251-268 | the ring answers for exactly the last 64 edges of the full history, each under its own number |
| `LineEngine.CountersGrow` | src/backend/line_cli.rs:149-209 | more output never takes an edge or a bell back |
| `LineHistory.StreamingHistory` | src/backend/line_cli.rs:149-209 | the backend's history is the newest 10 000 lines of the batch reading, evicted plus retained is all of them, exactly under the cut condition |
| `LineHistory.ChunkingDoesNotMatter` | src/backend/line_cli.rs:149-209 | two cuttings of one stream that lose nothing give the same history, eviction and screen |
| `LineHistory.SplitReturnLosesALine` | src/backend/line_cli.rs:167-174 | the input `a\r\n`, cut before the newline, commits an empty line |
| `LineHistory.EdgePerNewline` | src/backend/line_cli.rs:155-166 | a chunk makes one edge per newline, each with the screen right behind it |
| `LineHistory.ChangeMakesAnEdge` | src/backend/line_cli.rs:182-194 | a chunk that makes no edge leaves the screen as it was |
| `LineHistory.PendingAfterNewline` | src/backend/line_cli.rs:153-181 | after a chunk with a newline the live line is that of the chunk's own text behind its last newline |
| `LineHistory.NewestEdgeIsLive` | src/backend/line_cli.rs:182-194 | for every chunk with a newline and every size, the newest edge is the live screen if and only if nothing is evicted and the text behind the last newline shows nothing, or something that looks like every row it pushes up, or one eviction and one live line cancel on more than 10 000 equal rows |
| `LineHistory.FullHistoryIsStale` | src/backend/line_cli.rs:198-204 | with 10 000 lines retained and at most as many rows, every chunk with a newline evicts one line per newline, and its newest edge is not the live screen |
| `LineHistory.SynthPartition` | src/backend/line_cli.rs:274-291 | with at least one row, scrollback and viewport hold every line once and the viewport fits the grid |
| `LineHistory.ShownDropsARow` | src/backend/line_cli.rs:253-256 | snapshots agree with the rendered split unless a line is pending on a full screen; then exactly one row is missing |
| `FrameCapture.WaitForEdge` | src/capture/mod.rs:549-581 | ends at the first look at which an edge lies past the cursor, with the next edge's screen, or spends its budget; an edge that is already there is returned at the first look, without a nap |
| `FrameCapture.CaptureFrameSequence` | src/capture/mod.rs:526-605 | frames, numbers and stamps are those of one walk over the true edge history, stamped when each was served; the run is a list of turns, each begun with budget left, polling for an edge up to 300 ms and asking for the state only after all of that; it ends in process exit exactly if the last query found the child gone, and every earlier one found it running; no nap is taken while an edge lies past the cursor, a burst that is in is walked without any, and an edge past the anchor always gives a frame; at a process exit only edges of the last look are left behind |
| `FrameCapture.BurstWalk` | src/capture/mod.rs:526-605 | the walk is anchor+1, anchor+2, … with each screen as its edge left it if and only if it never lags more than 64 edges; numbers always rise past the anchor |
| `PipeStreams.FoldIsOwnSplit` | src/backend/pipe.rs:211-227 | a stream's own split is its text cut at newlines, without returns and bells, each line the longest prefix that fits the width in bytes |
| `PipeStreams.StoreIsOwnSplit` | src/backend/pipe.rs:194-233 | a store equals its stream's own split after every chunk if and only if no chunk is misfiled |
| `PipeStreams.ChunkStep` | src/backend/pipe.rs:205-227 | a correct store stays correct through a chunk exactly when that chunk is not misfiled |
| `PipeStreams.LineBufferedIsWellFiled` | src/backend/pipe.rs:205-224 | chunks that hold a newline only at their end, and some text otherwise, are never misfiled |
| `PipeStreams.UnfinishedLineIsMisfiled` | src/backend/pipe.rs:210-224 | a chunk that ends mid-line behind a newline spoils the store as soon as text follows |
| `PipeStreams.FusedLosesReturnedLine` | src/backend/pipe.rs:169-174 | the fused history commits an empty line for text that ends in `\r\n`, the store keeps it |
| `PipeStreams.FusedMeaning` | src/backend/pipe.rs:152-191 | the fused lines are the segments between newlines, each what follows its last return, cut to the width in bytes; the live line is that text up to the first character that reaches the width |
| `PipeStreams.FusedMirrorsLines` | src/backend/pipe.rs:148-174 | the fused history commits what the line backend would, cut to the width, if and only if no line ends in a return and a newline behind something to show |
| `PipeStreams.FusedConcat` | src/backend/pipe.rs:152-191 | the fused history does not depend on where the output is cut |
| `PipeStreams.EdgesCountChanges` | src/backend/pipe.rs:153-191 | over any text the edges of the fused screen are the bytes that change what it shows, one each |
| `PipeStreams.KeptIsEnough` | src/backend/pipe.rs:152-185 | the fused live line is cut like the whole text of its line, and the width splits a character of either if and only if the live line is one byte too long |
| `PipeStreams.StoreCommits` | src/backend/pipe.rs:211-219 | a stream read as one text is taken without a panic if and only if the width splits no character of a finished line |
| `PipeStreams.FusedCommitsMeaning` | src/backend/pipe.rs:152-185 | so is the fused history, for the text behind each line's last return; a commit panics exactly when the live line has cols + 1 bytes |
| `PipeStreams.SplitCharacterPanics` | src/backend/pipe.rs:154-158 | a line one byte short of the width, a byte from 0x80 on and a newline panic both |
| `PipeStreams.AsciiIsRead` | src/backend/pipe.rs:152-227 | ASCII output is taken from any ASCII state |
| `PipeStreams.LineStore.Ingest` | src/backend/pipe.rs:201-233 | panics exactly when a newline finds the width inside a character; otherwise one chunk takes a store to the specified one and reports the lines it evicted |
| `PipeStreams.PipeBackend.constructor` | src/backend/pipe.rs:117-146 | a new backend holds two empty stores and a dark screen |
| `PipeStreams.PipeBackend.IngestFused` | src/backend/pipe.rs:152-191 | panics exactly at a newline behind a live line whose character the width splits; otherwise one byte takes the fused history and bells one step on, and moves the screen and content counters by one exactly if it commits a line or changes the live one |
| `PipeStreams.PipeBackend.IngestStream` | src/backend/pipe.rs:194-239 | a chunk is taken exactly when neither half panics, and then streams do not interfere: each store stays a function of its own stream's chunks, the fused history one of all bytes in arrival order, and the screen and content counters move by the bytes that change what it shows |
| `EventClock.BackendEventClock.constructor` | src/backend/event_clock.rs:58-77 | a new clock has counted nothing |
| `EventClock.BackendEventClock.OnScreenChange` | src/backend/event_clock.rs:90-102 | both logs stay the newest 256 entries of the full change history |
| `EventClock.BackendEventClock.SyncCounters` | src/backend/event_clock.rs:117-124 | bell and title counters only move forward, to what the parser has counted |
| `EventClock.ChangesSince` | src/backend/event_clock.rs:142-159 | both logs carry the same consecutive numbers, and a query returns every later change if and only if at most 256 were recorded since |
| `EventClock.SinceIsStrict` | src/backend/event_clock.rs:139-148 | the strict filter agrees with the documented "at or after" if and only if the number is not in the log |
| `RawRing.RawCapture.Absorb` | src/backend/raw_capture.rs:43-52 | the window is the last 262 144 bytes of everything absorbed, and dropped plus retained is the total |
| `RawRing.RawCapture.Clear` | src/backend/raw_capture.rs:80-84 | a cleared ring starts a new stream |
| `RawRing.SliceIsBracketed` | src/backend/raw_capture.rs:64-76 | the bytes between two totals are that slice of a later window if and only if the window still reaches back to the first total |
| `ShellMarks.ShellMeaning` | src/backend/protocol.rs:139-160 | the command counter is the number of the latest start, the running flag says that no end followed it |
| `ShellMarks.ExitMeaning` | src/backend/protocol.rs:151-158 | the last exit is that of the latest end with an exit field, and nothing if the field is no number or there was none |
| `ShellMarks.PhaseMeaning` | src/backend/protocol.rs:139-160 | the phase is that of the latest known mark |
| `ShellMarks.FinishedAbove` | src/backend/protocol.rs:139-160 | a counter above n with no command running means, and is meant by, a start numbered above n whose latest start was followed by an end |
| `CausalWaits.CountersCountEvents` | src/backend/protocol.rs:139-160 | over any chunking the parser's bell and command counters count what the child sent |
| `CausalWaits.AnchoredVerdict` | src/backend/wait.rs:59-179 | a condition anchored to a baseline is met exactly past the baseline and settled |
| `CausalWaits.TerminalIsLatest` | src/backend/portable_pty.rs:97-148 | after any events the terminal shows the newest grid, history and title among them |
| `CausalWaits.LooksShowTheStream` | src/backend/portable_pty.rs:97-148 | after any looks and naps the terminal is the one fed with everything that arrived, however it was cut, and its bell and title counters count the rings and titles in it |
| `CausalWaits.GridLooksCount` | src/backend/portable_pty.rs:97-148 | the screen counter counts the looks that found another grid, and the change instant is that of the newest of them |
| `CausalWaits.VerdictMeans` | src/backend/wait.rs:59-179 | for every condition the evaluator, on the loop's tick, says whether the condition holds in terms of what had arrived and when, with the condition's reason |
| `CausalWaits.SettledMeans` | src/backend/event_clock.rs:160-171 | settled means that the whole quiet interval lies behind the newest look with another grid, or with output for `Idle`; an anchored `ScreenChange` asks for 40 ms |
| `CausalWaits.AnchoredRun` | src/backend/portable_pty.rs:742-822 | over the looks that the loop takes of the child's stream, it stops at the first that is past the anchor and settled; past the anchor at entry, every look before the last is unsettled |
| `CausalWaits.ActivityMeans` | src/backend/event_clock.rs:195-197 | for any baseline the backend showed earlier, its activity counter is past it exactly when its screen, bell or title counter is |
| `CausalWaits.BellAnchorIsExact` | src/backend/event_clock.rs:201-216 | a baseline taken from the backend at any moment makes a `Bell` wait react to exactly the bells of later events, whatever they are, if and only if the clock had adopted every bell |
| `CausalWaits.ActivityAnchorIsExact` | src/backend/event_clock.rs:195-216 | the same for `AnyActivity` and later edges, bells and titles, if and only if bells and titles had been adopted |
| `CausalWaits.TurnsAreSynced` | src/backend/portable_pty.rs:742-792 | those verdicts are the ones of the ticks the wait loop reads |
| `CausalWaits.StaleBaseline` | src/backend/portable_pty.rs:901-910 | a query that pumps without adopting leaves a bell waiting: a baseline taken then is satisfied by that older bell |
| `CausalWaits.UnanchoredIsExact` | src/backend/portable_pty.rs:721-735 | an unanchored `Bell` or `AnyActivity` wait reacts to exactly what comes after it begins, whatever comes, if and only if the clock had adopted every bell, or every bell and title, at entry |
| `CausalWaits.CountsSplit` | src/backend/event_clock.rs:117-124 | bells and titles up to any chunk and since it add up to those of the whole stream |
| `CausalWaits.CommandOutputWindow` | src/backend/wait.rs:148-177 | anchored at n it is met exactly while the latest command is n+1 and the text stands in grid or history; without an anchor only for the first command |
| `CausalWaits.OutputIsNew` | src/backend/wait.rs:152-156 | whatever follows the start of command n+1, being met means the text came in after it, in the command's output or behind it, if and only if neither grid nor history held the text at the start |
| `CausalWaits.OutputWhileRunning` | src/backend/mod.rs:699-703 | a text that was not there at the start and meets the wait came in after it; the command has not ended before it if and only if it still runs |
| `CausalWaits.LateEchoSatisfies` | src/backend/wait.rs:152-176 | while n+1 is the latest command, its end followed by a screen with `ok` meets the wait for its `ok` |
| `CausalWaits.OldTokenSatisfies` | src/backend/wait.rs:152-176 | a screen that reads `ok` before the first command starts meets the wait for its `ok` at once |
| `CausalWaits.CommandDoneMeans` | src/backend/wait.rs:134-147 | over all mark sequences, met at n means a start above n happened and the latest start was followed by an end |
| `CausalWaits.FinishIsLostToANewerCommand` | src/backend/mod.rs:694-695 | met at n exactly if an end came above n and no newer command is running |
| `CausalWaits.UnanchoredDoneIsStale` | src/backend/wait.rs:136-147 | the unanchored form is met by any finished state; whatever follows, that takes a new end if and only if none was finished at entry, and a new start with its end if and only if no command had started |
| `CausalWaits.OldCommandSatisfies` | src/backend/wait.rs:137-144 | a command that ended before entry, or one that was running, meets it without a new start |
| `ShellMarks.FinishIsNewEnd` | src/backend/protocol.rs:146-158 | from an unfinished state, and only from one, becoming finished takes a new end mark |
| `ShellMarks.FinishIsNewRun` | src/backend/protocol.rs:146-158 | before any start, and only then, becoming finished takes a new start and its end |
| `ShellMarks.FinishIsKept` | src/backend/protocol.rs:146-158 | a finished latest command above n is an end above n; such an end is lost exactly while a newer command runs |
| `CausalWaits.PortablePty.constructor` | src/backend/event_clock.rs:58-77 | a new backend has received nothing and has nothing to adopt |
| `CausalWaits.PortablePty.Absorb` | src/backend/portable_pty.rs:97-148 | a pump's chunks advance the screen counter by one exactly when the grid differs and the content counter exactly when its text does; instants move with them, no counter falls, bells and titles are not adopted |
| `CausalWaits.PortablePty.Pump` | src/backend/portable_pty.rs:97-148 | one look at the child: everything that has arrived is received and parsed in order, with at most one screen change; screen, content and instants move as above, bells and titles are not adopted |
| `CausalWaits.PortablePty.ScrollbackLines` | src/backend/portable_pty.rs:907-910 | the query pumps and adopts no bell and no title |
| `CausalWaits.PortablePty.Sync` | src/backend/portable_pty.rs:297-300 | the clock has adopted every bell and title the parser has counted |
| `CausalWaits.PortablePty.Turn` | src/backend/portable_pty.rs:742-792 | one turn is one look, and its tick is the synced counters and the terminal of all that arrived by then |
| `CausalWaits.PortablePty.Wait` | src/backend/portable_pty.rs:721-823 | one entry look, then a look after every 15 ms and nothing else, up to the first at which the condition holds or the budget is spent; whether it holds is told by everything that had arrived by that look and when it came; the reason is the condition's, and the baselines are those at entry and of the entry look |
| `CausalWaits.PortablePty.WaitAfter` | src/backend/trait_def.rs:196-203 | met if and only if the watched counter passed the baseline and the look is settled, ended by the first such look; passed before entry, every earlier look is unsettled. A screen or idle wait is met if and only if its counter passed and every look with another grid, or with output, lies the quiet interval back. For a baseline of this backend `AnyActivity` is met if and only if screen, bell or title advanced since, and from an adopted baseline `Bell` if and only if the child rang since |
| `ControlFraming.TakeControlBlocks` | src/backend/tmux.rs:1296-1328 | blocks are disjoint, in order and inside the consumed prefix, and the rest is the unclaimed suffix |
| `ControlFraming.FirstFrameExtends` | src/backend/tmux.rs:1300-1326 | a complete block stays the first whatever arrives behind it |
| `ControlFraming.CarryOver` | src/backend/tmux.rs:1231-1232 | running on the carried rest plus more equals running on everything |
| `ControlFraming.FramingIgnoresCuts` | src/backend/tmux.rs:1216-1232 | every way of cutting a stream yields the blocks and the rest of one run on the whole |
| `ControlFraming.ControlReader.Drain` | src/backend/tmux.rs:1216-1281 | blocks and pending text after a drain, the bytes of all blocks and the bytes cut off past the capacity; until any are cut, the reader is the fold of all it received |
| `ControlFraming.RecognisedBlocks` | src/backend/tmux.rs:1303-1325 | whatever follows it, a well-formed block is framed as its header and whole output if and only if it is recognisable |
| `ControlFraming.RecognisableLines` | src/backend/tmux.rs:1310-1320 | recognisable means: there is output, the number is a prefix of the time, and no output line after the first starts with `%end ` and the number |
| `ControlFraming.RecognisedOrMissed` | src/backend/tmux.rs:1303-1320 | alone and without such a line, a block that is not recognisable is not seen at all |
| `ControlFraming.RealBlockIsMissed` | src/backend/tmux.rs:1310-1320 | a block with time 1363006971 and number 2 is not recognised |
| `ControlFraming.EmptyBlockIsMissed` | src/backend/tmux.rs:1305-1320 | the block `%begin 22 2 1`, `%end 22 2 1` without output is not recognised, though 2 is a prefix of 22 |
| `ControlFraming.RecognisedStream` | src/backend/tmux.rs:1296-1328 | a stream of well-formed blocks is framed block by block if and only if each of them is recognisable |
| `Base64.DecodeBase64` | src/backend/tmux.rs:1330-1367 | the loop over the unmasked accumulator returns the group-wise reading of the digits, or nothing |
| `Base64.LoopStep` | src/backend/tmux.rs:1359-1364 | one digit keeps the held-back bits, whatever stands above them in the word, and pushes the byte of the RFC's groups |
| `Base64.GroupsRoundTrip` | src/backend/tmux.rs:1353-1365 | decoding 24-bit groups inverts encoding them (section 4 of RFC 4648) |
| `Base64.RoundTrip` | src/backend/tmux.rs:1330-1367 | every byte string survives, in both alphabets, with none, one or two padding characters and with space around it |
| `Base64.DecodedShape` | src/backend/tmux.rs:1346-1366 | n characters of the alphabets give floor(6n/8) bytes; a foreign character, or more than two padding ones, give none |
| `InputReports.StreamRoundTrip` | src/backend/input.rs:199-309 | any list of SGR mouse and kitty key reports, concatenated, parses back to that list in canonical form |
| `InputReports.AmbiguousKeys` | src/backend/input.rs:202-226 | only characters with a named key's code have another canonical form |
| `InputReports.SameBytes` | src/backend/input.rs:199-309 | two reports share their bytes if and only if their canonical forms are equal |
| `InputReports.X10RoundTrip` | src/backend/input.rs:311-321 | any list of classic reports within range decodes, six bytes each |
| `InputReports.Utf8ReportIsUtf8` | src/backend/input.rs:322-333 | the 1005 bytes are UTF-8 code points if and only if both coordinates are below 95 |
| `InputDispatch.RefusedKeys` | src/backend/input.rs:28-192 | a key has an encoding if and only if the modes and the key say so beforehand: with kitty flags all but function keys outside 1 to 20, without them no Super and function keys up to 12 |
| `InputDispatch.ControlByteMeans` | src/backend/input.rs:53-76 | Ctrl keeps the low five bits of the characters it applies to, and `2` stands for `@` |
| `InputDispatch.NamedKeysReadBack` | src/backend/input.rs:113-192 | a VT220 reader takes the bytes of Enter, Tab, Backspace, Escape and the function keys for those keys, and of Tab for its Shift |
| `InputDispatch.TypingIsText` | src/backend/input.rs:113-129 | without kitty flags, typing a text key by key puts the same bytes on the wire as sending it at once, and with Shift held those of its upper case |
| `InputDispatch.NavigationRoundTrip` | src/backend/input.rs:79-112 | modified navigation keys keep their modifiers: each sequence reads back as its key |
| `InputDispatch.AltPrefix` | src/backend/input.rs:53-192 | Alt puts an escape before an encodable key if and only if Ctrl does not turn it into a control byte and it is no navigation key |
| `InputDispatch.KeysAllOrNothing` | src/backend/portable_pty.rs:619-628 | a list of keys has a payload if and only if every key has one |
| `InputDispatch.KeysReadBack` | src/backend/portable_pty.rs:619-628 | with kitty flags the application reads the payload back as the keys sent |
| `InputDispatch.PasteReadsBack` | src/backend/portable_pty.rs:630-639 | a reader of bracketed paste gets back what was pasted if and only if that does not hold the closing bracket |
| `InputDispatch.ModesWiden` | src/backend/portable_pty.rs:668-690 | every mouse mode reports presses and scrolls; releases, drags and moves each take a wider one |
| `InputDispatch.ClickIsBothHalves` | src/backend/portable_pty.rs:641-667 | a click is accepted exactly when its press and its release are, and is their concatenation |
| `InputDispatch.ClickReadsBack` | src/backend/portable_pty.rs:641-667 | the application reads a click as press and release in every encoding |
| `InputDispatch.PtyInput.WriteInput` | src/backend/portable_pty.rs:318-329 | the transport takes a prefix of the bytes, all of them when it succeeds |
| `InputDispatch.PtyInput.Dispatch` | src/backend/portable_pty.rs:591-697 | failed before the write if and only if there is no session or no payload, and then no byte was sent; otherwise one write of the whole payload |
| `Calendar.CivilIsCounted` | src/main.rs:507-522 | every day number gives a valid Gregorian date, and counting leap years and months back gives the number |
| `Calendar.CountedIsCivil` | src/main.rs:507-522 | every valid date is the formula's date for its own count |
| `Calendar.CivilFollowsCalendar` | src/main.rs:507-522 | day n+1 is the calendar's next day |
| `Calendar.CivilEpoch` | src/main.rs:513-522 | day 0 is 1970-01-01 |
| `Calendar.StampRoundTrip` | src/main.rs:507-527 | date and time of day are valid and lose only the milliseconds |
| `Calendar.DayNumberOfNextDay` | src/main.rs:504-506 | the reference count advances by one per calendar day |
| `XmlEscape.FivePassesAreOne` | src/main.rs:987-993 | five replace passes are one substitution, character by character |
| `XmlEscape.EscapeRoundTrip` | src/main.rs:987-993 | a reader of the entities of section 4.6 of XML 1.0 gets every string back |
| `XmlEscape.NothingBare` | src/main.rs:987-993 | the output holds no bare metacharacter (section 2.4 of XML 1.0) |
| `XmlEscape.AmpersandGoesFirst` | src/main.rs:987-993 | a pass before the ampersand's gives another text if and only if it replaces anything |
| `XmlEscape.PlainTextStays` | src/main.rs:987-993 | a text is unchanged if and only if it has no metacharacter |
| `ScreenSearch.ScanIsLeftmost` | src/backend/mod.rs:372-387 | a row's hits are apart, are occurrences, and leave no occurrence uncovered |
| `ScreenSearch.LeftmostIsMost` | src/backend/mod.rs:372-387 | no list of separate occurrences is longer, and no other list has the properties of the hits |
| `ScreenSearch.ScanRow` | src/backend/mod.rs:374-386 | the inner loop pushes a row's hits in order and ends for every nonempty query |
| `ScreenSearch.Scan` | src/backend/mod.rs:372-388 | the loop over the rows pushes the hits of every row in order |
| `ScreenSearch.SearchScreen` | src/backend/mod.rs:366-392 | viewport hits first, then scrollback hits; an empty query has none |
| `ScreenSearch.EveryRowIsLeftmost` | src/backend/mod.rs:366-392 | row by row and region by region the result is the leftmost occurrences and nothing else |
| `ScreenSearch.HitsAreWhole` | src/backend/mod.rs:374-386 | a hit begins and ends between characters of the lower-cased row, so the scan can slice there |
| `ScreenSearch.HitIsItsPlace` | src/backend/mod.rs:357-361 | a reported hit is the offset and length of the characters that matched if and only if lower-casing keeps the length of the prefixes at both ends |
| `ScreenSearch.OffsetsMeanTheRow` | src/backend/mod.rs:357-361 | over all queries, every hit of a row names characters that lower-case to the query if and only if every character of the row keeps its width in lower case |
| `ScreenSearch.OffsetsAreTheRows` | src/backend/mod.rs:357-361 | on ASCII rows a hit is where the query stands in the row itself, letter by letter without case |
| `ScreenSearch.OffsetsCanMissTheRow` | src/backend/mod.rs:374-386 | under a lower-case table that shrinks U+212A and lengthens U+0130, `ab` behind either is reported where it does not stand |
| `Utf8.MatchIsAligned` | src/backend/mod.rs:377 | a byte match of whole characters in UTF-8 text covers whole characters |
| `AuditSchedule.RunFull` | src/audit/orchestrator.rs:1053-1136 | the member loop over group, restart count and abort flag writes the specified trace |
| `AuditSchedule.RestartIsolation` | src/audit/orchestrator.rs:1053-1136 | over any table: a mutating driver that opens a group follows a successful restart, nothing is driven after a failed one, members run in order, the closing event counts the restarts |
| `AuditSchedule.LoopRestartsWhereDue` | src/audit/orchestrator.rs:1066-1091 | over any table a restart stands exactly before each driver that opens a group and may leave something behind, or opens a group from 4 on without being purely observational |
| `AuditSchedule.IsolationIsTheTables` | src/audit/orchestrator.rs:1066-1091 | every mutating driver runs on an application restarted since another group's driver, whatever restarts do, if and only if the table hides no mutating member behind an opener without a restart |
| `AuditSchedule.FreshnessIsTheTables` | src/audit/orchestrator.rs:614-615 | every mutating driver comes straight after a successful restart, whatever restarts do, if and only if every mutating member opens a group |
| `AuditSchedule.SecondMutatorIsNotFresh` | src/audit/orchestrator.rs:1070-1075 | two mutating drivers of one group are always isolated from other groups, and some run drives the second without a restart |
| `AuditSchedule.LoopCounts` | src/audit/orchestrator.rs:1070-1091 | restarts are counted one by one, drivers run as a prefix of the table, all of them unless aborted |
| `AuditSchedule.LoopStopsAtFailure` | src/audit/orchestrator.rs:1076-1082 | no driver after a failed restart, no failed restart in a completed loop |
| `AuditSchedule.LoopAborts` | src/audit/orchestrator.rs:1076-1082 | an aborted loop counted and recorded the restart that failed |
| `AuditSafety.SafeOnlyIsSafe` | src/audit/orchestrator.rs:657-785 | safe-only runs through the checked entry point use no invasive driver and no invasive contract check, for any profile, if and only if the table gates `full` |
| `AuditSafety.SingleProfileDrives` | src/audit/orchestrator.rs:832-972 | over all tables, policies and sessions a profile other than `full` drives exactly its own row, once, if it reads the live session and may; mode, refusal, gate, note, contract check and static pass stand exactly where they belong |
| `AuditSafety.FullIsDecomposed` | src/audit/orchestrator.rs:673-748 | what a withheld `full` runs and what it names partition the included members by risk |
| `AuditSafety.RefusedUnlessContract` | src/audit/orchestrator.rs:832-972 | without a launch spec, isolation refuses an invasive profile if and only if it is neither the contract one nor a static one; only the contract check touches the application |
| `AuditSafety.ImpossibleIsolationIsSafe` | src/audit/orchestrator.rs:832-972 | without a launch spec, isolation touches nothing invasively for any profile if and only if the table gates `full` and the check of a loaded contract is harmless |
| `AuditSafety.UncheckedEntryIsUnsafe` | src/audit/orchestrator.rs:808-819 | for every profile of every table, a run through the contract-armed entry point is safe if and only if no row the profile reaches is invasive: the grouped members for `full`, the checks of a loaded contract, a live profile's own row |
| `AuditSafety.ShippedUncheckedEntry` | src/audit/orchestrator.rs:808-819 | on the shipped table it is unsafe for `full` and every invasive profile, except a contract check without a contract |
| `AuditSafety.AllowedFullRunsGroups` | src/audit/orchestrator.rs:1061-1064 | with mutation allowed `full` drives the grouped members in order, which is all included ones if and only if all have a group |
| `AuditSafety.IsolatedFull` | src/audit/orchestrator.rs:832-1136 | with a launch spec an isolated `full` reads a frame, and behind it its drivers are isolated, stop at a failed restart and are all the grouped members otherwise |
| `AuditSafety.ShippedTable` | src/audit/orchestrator.rs:198-465 | the shipped table gates `full`, gives each mutating driver a fresh application, and leaves seven included readers without a group |
| `FindingIdentity.SortedIsOrdered` | src/audit/mod.rs:430 | sorting orders the parts by bytes and keeps each of them |
| `FindingIdentity.OrderedIsUnique` | src/audit/mod.rs:430 | a multiset of parts has one ordered listing |
| `FindingIdentity.MaterialIsTheMultiset` | src/audit/mod.rs:421-442 | the length-prefixed bytes fed to the hash agree if and only if the parts do, as multisets |
| `FindingIdentity.ComputeOccurrenceId` | src/audit/mod.rs:421-443 | collecting, sorting and feeding the parts one by one hashes exactly that material |
| `FindingIdentity.IdentityIsTheParts` | src/audit/mod.rs:415-443 | two findings are one occurrence if and only if their multisets of rule, category and nonempty targets are equal |
| `FindingIdentity.SameRuleSamePlace` | src/audit/mod.rs:415-443 | for one rule and category identity is the multiset of nonempty targets |
| `FindingIdentity.RolesAreForgotten` | src/audit/mod.rs:422-430 | identity determines the rule if and only if all parts are one text, or rule and category are empty |
| `FindingIdentity.MakeInstance` | src/audit/mod.rs:394-413 | the field-by-field rewriting yields the settled finding: its rule, the rule or rule and discriminator as id, its own identity, everything else untouched |
| `FindingIdentity.InstanceIdsTell` | src/audit/mod.rs:386-413 | with discriminators that do not collide, two instance ids are equal if and only if rule and first target are, unless a rule without a target reads like the other's instance id |
| `FindingIdentity.InstanceSettles` | src/audit/mod.rs:394-413 | settling is idempotent, keeps the parts, and keeps the fingerprint if and only if no other one was stored |
| `FindingCompare.FirstOf` | src/audit/compare.rs:103 | the baseline record is the first of that fingerprint, present if and only if the fingerprint is known |
| `FindingCompare.CompareImpl` | src/audit/compare.rs:84-122 | each current finding has exactly one of three verdicts by where its fingerprint is known, then follow the fixed ones in baseline order |
| `FindingCompare.FixedMirrorsFresh` | src/audit/compare.rs:84-122 | what A against B fixed is, in order, what B against A has new or regressed |
| `FindingCompare.CountsAddUp` | src/audit/compare.rs:125-137 | the three current counts add up to the current findings, all four to the records; added are those known neither to the baseline nor as resolved, persisting those the baseline knows; nothing regresses without a resolved set |
| `FindingCompare.NothingChanged` | src/audit/compare.rs:84-122 | a pass compared with itself is all persisting |
| `FindingCompare.PersistingIsSameParts` | src/audit/compare.rs:94-100 | between findings that store no identity or their own, persisting means, and is meant by, a baseline finding of the same parts |
| `FindingCompare.RecordedPersist` | src/run/findings_impl.rs:12-21 | between two passes whose findings all went through `instance`, a finding persists if and only if one of the same parts was found before |
| `FindingCompare.CompareDefects` | src/audit/compare.rs:74-82 | only defects are compared, and none regresses |
| `FindingCompare.TelemetryIsInvisible` | src/audit/compare.rs:75-80 | one more finding changes the compared lists if and only if it is a defect |

## Left out

- Counters and lengths: unbounded here, 64-bit in the program. Where a width matters it is written out: the 32-bit accumulator, the coordinate's 16-bit increment, the 64-bit length prefixes.
- Rendering of the grid, cursor, styles and hyperlinks: a line screen is its viewport and scrollback rows, a portable screen an opaque grid compared for equality where the program compares fingerprints. Control characters inside line-backend rows are kept as they are.
- Lossy UTF-8 decoding per chunk: the line engine works on decoded characters. Framing is over ASCII, where bytes and characters agree.
- PipeStreams.StoreIsOwnSplit: speaks of the stores of chunks that are all taken; after a panic there is no state to speak of.
- Search lower-cases character by character from a table that is a parameter; the context rule for the Greek final sigma, which keeps its width, is not part of it.
- Spawning, signals, resizing, recording hooks, reader threads and `start`/`stop`: a backend begins at its constructor and its chunks come from a free choice. `start` of the line backend does not clear the edge ring; the model never restarts one.
- A pump drains finitely many chunks; the process flag of a stored edge snapshot is read from the child at the wait instead.
- A change that is painted and undone inside one pump of the portable backend makes no edge, so waits are exact about counters, not about such flickers.
- FrameCapture.CaptureFrameSequence: does not model a failing wait and the two stop reasons that follow it, because the line backend's wait returns no error.
- The other capture strategies, `compile_completion` and the text predicates: one branch each.
- InputDispatch.PtyInput.Dispatch: does not model the pump and the counter sync before the modes are read, because they write nothing to the application except query answers; the modes are a field.
- PipeStreams.PipeBackend.IngestStream: does not model the output counter and the skipping of empty chunks in `pump`, because an empty chunk never reaches it.
- Input for the line, pipe and tmux backends, resize and signal inputs, the kitty flag operations and the query responder: small tables without a law of their own.
- Parsing a control block into events and the 512-event queue: `take_events` after eviction no longer answers by sequence number.
- The header line's text and its zero padding: the stamp is a record of numbers.
- ControlFraming.ControlReader.Drain: states the chunk-independence only until bytes are cut off past the capacity, because afterwards the cut text is gone.
- FindingIdentity.IdentityIsTheParts: assumes an injective hash, because the hash is an external library; its truncation to 16 hex digits and the 8-digit discriminator of instance names are not modelled.
- Driver bodies, transactions, residue checks, per-profile budgets, profile-name parsing and I/O errors of observation: a driver is one event of the trace.
- Loading of baselines and JSON form of the comparison summary: only its counts are modelled.
- Scenario design, repair, checkpoints, coverage, verification verdicts, error types, CLI and MCP wiring: session driving and plumbing.
