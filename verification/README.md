# Arreo verification

Dafny models of the hard parts of Arreo's `xtask` harness, and of the live handoff of panes between
two daemons that the harness exercises. `dafny verify dfyconfig.toml` checks everything; the project
is self-contained.

| file | models |
|---|---|
| `Text.dfy` | the parts of Rust's `str` the harness is written on: character classes, parsing, splitting, lines, trimming, search |
| `Utf8.dfy` | the lossy decoding of UTF-8 (section 3 of RFC 3629) between the transcript's bytes and the screen's characters |
| `Terminal.dfy`, `TerminalTheorems.dfy`, `TerminalLaws.dfy`, `TerminalLines.dfy`, `Harness.dfy` | the screen rebuilder (section 5.4 of ECMA-48, as the code departs from it) and the bounded transcript that feeds it |
| `Handoff.dfy`, `HandoffTheorems.dfy`, `HandoffRuns.dfy`, `HandoffRetry.dfy`, `HandoffPoints.dfy`, `HandoffStream.dfy`, `KillPoints.dfy` | the handoff as a step system of an outgoing daemon, an incoming daemon, their connection and an observing harness; a clock for the settle and commit waits, any number of panes, any interleaving |
| `Ticks.dfy` | the marker stream of a pane, from the counter to the verdict |
| `Json.dfy`, `JsonFields.dfy`, `JsonPretty.dfy` | escaping and in-place field editing (section 7 of RFC 8259), against the printer whose documents it edits |
| `Retag.dfy`, `SameBytes.dfy`, `Panes.dfy` | the byte-level loops and the restart verdict of the update slice |
| `Sgr.dfy` | the three scanners of select-graphic-rendition sequences (section 8.3.117 of ECMA-48) |
| `Report.dfy` | the benchmark report and the counter that reads it |
| `Surface.dfy`, `Golden.dfy` | the golden-symbol check, and the code's own golden list |
| `Links.dfy` | the markdown link scanner |

Main results, in the system's own terms:

- A transcript that lost its beginning, even in the middle of an escape sequence or of a character,
  renders as the whole byte stream does once one complete clear lies in what was kept; styling never
  changes a screen; painted cells read back, and lines print row by row, the last row being overwritten by
  every line that does not fit; no cursor sum overflows below 2^31.
- At most one daemon reads the panes in every run exactly when the outgoing daemon's commit wait is at
  least as long as a live incoming daemon may take from the last master to its marker or its failure.
  Point C's verdict is sound in every interleaving, with every terminal at the killed daemon, exactly when
  that holds and the settle wait covers the time a marker needs to be acted on. Point B's claim holds
  exactly for the attempts whose incoming daemon was killed before its last terminal arrived.
- From every cut aborted before its marker, whatever the old daemon, the retries and the clock do, every
  run is bounded by its deferrals and ticks, requests during the recovery change nothing, the kill leaves
  one abort on the record exactly when the old daemon had replied and was still in that cut, and a run
  that can go no further has committed and carried the same panes.
- No tick of a pane is lost or doubled in any run, through every cut, abort and retry, exactly when one
  daemon at a time reads the panes in every run.
- There is no point of no return before the marker: in every reachable state before it the cut can still be
  aborted and the old daemon serves every pane again; after the commit nothing goes back.
- Rewriting a field of a printed document is printing it with the new value. Rewriting two fields commutes for all one-line values exactly when neither value runs into the other
  field's name; escaped text always reads back; the last write wins.
- Each fast or chunked loop computes its plain specification, and each scanner inverts its printer, with
  the exact condition where it does not always.

Where the code and its own words disagree, the model follows the code:

- `handoff_abort_slice.rs:1229-1246` says a committed daemon is not killed, and the branch calls
  `kill9` on it. `HandoffTheorems.ObserverSound` states the consequence: after an abandoned attempt
  the incoming daemon is dead, and when the cut had committed nobody serves.
- `handoff_abort_slice.rs:1162-1169` says no commit has happened at point B's kill. A silent stream and a
  live incoming daemon do not imply it, and neither does the terminal count taken before the kill,
  because the daemon runs on until it is killed: `HandoffRuns.MidCountIsStale`. The claim holds exactly
  when a terminal was still missing at the kill: `HandoffRuns.MidPointExactly`.
- The incoming daemon's accept loop is live before the marker (`crates/arreo-server/src/main.rs:860-911`),
  so "one daemon serves" is stated of who reads the panes. Even that depends on the commit wait
  (`crates/arreo-server/src/handoff.rs:796-821`): the outgoing daemon always waits ten seconds, while the
  slice grants the incoming daemon thirty for starting to accept, so two daemons can end up reading the
  panes: `HandoffRuns.SliceDurations`.
- The slice's check that an aborted cut is on the audit trail (`handoff_abort_slice.rs:1418-1462`) needs the
  reply to have been written: a daemon killed between its request and the reply leaves no abort, because
  the old daemon only finds its peer gone (`crates/arreo-server/src/daemon.rs:4771-4790`):
  `HandoffRetry.UnansweredLeavesNoAbort`.
- `release_check.rs:558-566` takes a line of inline links for a reference definition when it begins with
  a bracket and a target spells `]: `; the rest of that target is returned as a second link:
  `Links.MarkedTargetAddsLink`.
- Every `J` clears the whole screen and homes the cursor, and a full row overwrites its last column:
  both as in `harness.rs:290-294` and `316-323`, not as in ECMA-48.
- `assert_surface` looks a golden symbol up as a substring, so a golden function may be present only
  inside a longer generated symbol: as its prefix (`Surface.GoldenFunctionIsGenerated`), or anywhere when
  a golden symbol spells the needle twice (`Surface.HiddenGoldenFunction`).

## Model

| member | source | states |
|---|---|---|
| Harness.RenderScreen | xtask/src/harness.rs:258-333 | the character loop over the mutable grid computes the token-by-token rendering; it panics exactly when the checked run overflows |
| Harness.Execute | xtask/src/harness.rs:276-302 | one control sequence on the grid, with the exact overflow condition of its additions |
| Harness.Type | xtask/src/harness.rs:309-324 | one character on the grid, including carriage return, newline and backspace |
| Harness.ScanToken | xtask/src/harness.rs:265-275 | the parameter loop stops where the token ends, also at the end of the stream |
| Terminal.OutputShape | xtask/src/harness.rs:326-332 | for every stream the text is exactly max(rows,1) lines of at most max(cols,1) characters: the trimmed grid rows |
| Terminal.RunValid | xtask/src/harness.rs:258-325 | every stream keeps the grid's shape and never stores a control character |
| Terminal.RenderNeverOverflows | xtask/src/harness.rs:282-289 | with dimensions and parameters below 2^31 every cursor sum stays below 2^32, so the machine run equals the unbounded one |
| TerminalTheorems.DownOverflowsExactly | xtask/src/harness.rs:287-287 | an address followed by a downward move overflows the machine word if and only if their sum does |
| TerminalTheorems.RightOverflowsExactly | xtask/src/harness.rs:288-288 | and so does an address followed by a move to the right |
| TerminalTheorems.CutMerges | xtask/src/harness.rs:263-325 | for any stream, dropping a prefix and putting anything in its place leads to the same screen once a complete clear is kept that starts a token of both streams |
| TerminalTheorems.CutReaches | xtask/src/harness.rs:265-308 | after any cut of an escape-clean stream, with escape-free debris in the place of what was dropped, every kept escape still starts a token |
| TerminalTheorems.TrimmingKeepsScreen | xtask/src/harness.rs:207-214 | the rendered text of a trimmed escape-clean stream equals that of the whole stream |
| Utf8.DecodeAppend | xtask/src/harness.rs:207-214 | decoding splits before every byte that continues no character |
| Utf8.DecodeCut | xtask/src/harness.rs:207-214 | dropping any bytes from the front leaves replacement characters and a suffix of the decoded text |
| Utf8.DecodeEncoded | xtask/src/harness.rs:207-214 | decoding the encoding of any text gives it back, whatever bytes follow |
| Utf8.DecodedIsEncoding | xtask/src/harness.rs:207-214 | only encodings decode: overlong forms, surrogates and values beyond the last character are replaced |
| Utf8.ChunkTakesAll | xtask/src/harness.rs:207-214 | one replacement stands for at least every stretch that begins like some character |
| Utf8.ChunkBegins | xtask/src/harness.rs:207-214 | and for no longer one |
| TerminalTheorems.CutNeedsCleanTokens | xtask/src/harness.rs:269-275 | without escape-clean tokens the cut changes the screen, on every grid of two columns or more |
| Harness.SinkIsTail | xtask/src/harness.rs:174-190 | for every chunking the sink is a suffix of everything read, at most 4 MiB, and at least 2 MiB of it |
| Harness.ShortStreamIsKept | xtask/src/harness.rs:180-188 | a stream of at most 4 MiB is kept whole, however it is read |
| Harness.EmptyReadEnds | xtask/src/harness.rs:177-180 | what would come after the empty read is never absorbed |
| Harness.SinkRendersWholeStream | xtask/src/harness.rs:174-214 | for every byte stream that decodes to an escape-clean text and every chunking, the sink renders as the whole stream when a clear lies in the kept bytes |
| Harness.Transcript.Read | xtask/src/harness.rs:180-188 | extend, then drain to the low-water mark when above the high-water mark |
| Harness.Transcript.ReadAll | xtask/src/harness.rs:174-190 | the reader loop absorbs every read up to the empty one |
| Harness.Transcript.ShowScreen | xtask/src/harness.rs:207-214 | the screen is the rendering of the sink |
| TerminalTheorems.StylingIsNotContent | xtask/src/harness.rs:256-308 | deleting every styling sequence and charset designation from any stream leaves the screen identical |
| TerminalTheorems.ErasureIsComplete | xtask/src/harness.rs:300-307 | erasing styling twice erases nothing more |
| TerminalTheorems.TokenIsSelfDelimiting | xtask/src/harness.rs:265-308 | a token that ended before the stream keeps its extent whatever follows |
| TerminalTheorems.PaintingReadsBack | xtask/src/harness.rs:276-333 | for every grid and every list of in-bounds addressed writes, each line is the last-write-wins row, trimmed, through decimal printing and parsing |
| TerminalLaws.MovesUndo | xtask/src/harness.rs:286-289 | down and up, or right and left, by one number cancel if and only if the move stays inside or starts at the edge |
| TerminalLaws.EraseReadsBack | xtask/src/harness.rs:295-299 | erasing blanks exactly the cells from the cursor's column on in its row |
| TerminalLaws.TypingReadsBack | xtask/src/harness.rs:316-323 | printable text lands from the cursor on, stays in its row, and keeps overwriting the last column |
| TerminalLaws.RenderOfText | xtask/src/harness.rs:316-333 | a stream of printable text renders as one line without wrapping and blank lines after it |
| TerminalLines.LinesRender | xtask/src/harness.rs:258-333 | for lines that fit, each ended by a newline with or without a carriage return: line i, trimmed, in row i; blank rows after the last line; in the last row every line from there on, one over the other |
| TerminalLines.ScreenfulRenders | xtask/src/harness.rs:258-333 | as many lines as rows: the output is those lines, trimmed, in order |
| TerminalLines.NewlineMovesDown | xtask/src/harness.rs:310-313 | a newline goes to the start of the next row, and stays in the last one |
| TerminalLines.ReturnOverwrites | xtask/src/harness.rs:309-324 | after a carriage return the next text overwrites the row from its start and leaves the rest of it |
| TerminalLines.BackspaceReplaces | xtask/src/harness.rs:309-324 | after a backspace the next character replaces the one before it |
| TerminalLines.ControlsAreIgnored | xtask/src/harness.rs:309-324 | every other control character changes nothing |
| TerminalLines.BelowTheGrid | xtask/src/harness.rs:316-323 | a cursor below the grid prints nothing and does not move |
| TerminalLines.RightOfTheGrid | xtask/src/harness.rs:316-323 | a cursor to the right of the grid prints nothing and comes back to the last column |
| TerminalLines.CharsetIsSilent | xtask/src/harness.rs:303-308 | a charset designation is three characters and changes nothing |
| TerminalLines.EscapeDropsOne | xtask/src/harness.rs:303-308 | any other escape takes one character with it and changes nothing |
| TerminalLines.OtherFinalIsSilent | xtask/src/harness.rs:269-302 | a sequence ends at the first character from `@` to `~`, and one with a final byte the code does not know changes nothing |
| TerminalLines.UnfinishedIsSilent | xtask/src/harness.rs:269-275 | a stream that ends inside a sequence drops what it has of it |
| TerminalLines.BareSequences | xtask/src/harness.rs:276-289 | without parameters an address is the first cell and a move is by one, stopping at the edges |
| TerminalLines.RowAddress | xtask/src/harness.rs:280-285 | an address with a row only is the first column |
| TerminalLines.OtherAddress | xtask/src/harness.rs:280-285 | `f` addresses as `H` does |
| Text.TrimEndIsExact | xtask/src/harness.rs:326-332 | trimming the end of a row takes every blank from there and nothing else |
| Handoff.RunPreserves | crates/arreo-server/src/daemon.rs:4926-5086 | every reachable state keeps the pumps, transfer, marker, session and clock invariants of the handoff |
| Handoff.ClockRunsOn | xtask/src/handoff_abort_slice.rs:100-109 | the two bounds never stop the clock for good: where time may not pass, the marker can be taken or the incoming daemon can fail, and then any time may pass |
| HandoffTheorems.OneReader | crates/arreo-server/src/daemon.rs:5046-5072 | in every run a reading incoming daemon holds every pane with its pid, without a marker the old daemon never leaves, and two readers imply a commit wait shorter than the incoming daemon's bound |
| HandoffRuns.OneReaderExactly | crates/arreo-server/src/handoff.rs:796-821 | at most one reader in every run if and only if the commit wait is at least the time a live incoming daemon may take to its marker, or there are no panes |
| HandoffRuns.SlowServeTwoReaders | crates/arreo-server/src/handoff.rs:817-818 | for any panes, a shorter commit wait has a run that ends with two readers |
| HandoffRuns.SliceDurations | crates/arreo-server/src/handoff.rs:248-253 | with the ten-second wait of the code one reader in every run if and only if the marker takes at most ten seconds, and point C sound if and only if it is also acted on within 150 ms; the slice's thirty seconds allow two readers |
| HandoffTheorems.SettleDecides | xtask/src/handoff_abort_slice.rs:100-109 | after the freeze and the settle wait nothing on the wire can still commit the cut |
| HandoffTheorems.ObserverSound | xtask/src/handoff_abort_slice.rs:1194-1281 | in every interleaving, point C reaches its assertions only with every terminal arrived in order at the daemon it killed and an export that did not fail, only if the cut never commits, and with a marker sent only if the commit wait could expire under it; an abandoned attempt saw a commit or a failed export and left the incoming daemon killed |
| HandoffRuns.ObserverSoundExactly | xtask/src/handoff_abort_slice.rs:100-109 | no marker was sent in every run that reaches the assertions if and only if a marker is acted on within the settle wait and sent within the commit wait |
| HandoffRuns.SlowMarkerIsMissed | xtask/src/handoff_abort_slice.rs:1224-1228 | a marker acted on more slowly has a run that reaches the assertions with the marker sent, for any panes and waits |
| HandoffRuns.ExpiredWaitIsMissed | xtask/src/handoff_abort_slice.rs:1224-1228 | so has a commit wait that may expire before the marker |
| HandoffRuns.MidPointExactly | xtask/src/handoff_abort_slice.rs:1162-1192 | no marker and no row in every run that reaches point B's assertions with k terminals arrived at the killed daemon, if and only if k is not all of them |
| HandoffRuns.MidCountIsStale | xtask/src/handoff_abort_slice.rs:1181-1187 | whatever the count before the kill reads, a run reaches the assertions with the marker sent |
| HandoffRuns.TransferCompletes | crates/arreo-server/src/daemon.rs:4996-5046 | for any number of panes the transfer reaches the moment before the marker |
| HandoffRuns.MarkerWhileRecording | crates/arreo-server/src/daemon.rs:4860-4892 | an expired commit wait has a run in which the marker is written after the old daemon's pumps resumed and before its abort is recorded: both daemons read |
| HandoffPoints.AfterPointReached | xtask/src/handoff_abort_slice.rs:1194-1205 | whatever the waits are, point C reaches its assertions only with every terminal arrived at a dead daemon and a readable export |
| HandoffPoints.AfterPointPaused | xtask/src/handoff_abort_slice.rs:1255-1270 | the daemon killed at point C was frozen and alive, the watched pane was paused, and the old daemon was inside the cut or past it |
| HandoffPoints.PassedPollFoundOld | xtask/src/handoff_abort_slice.rs:1224-1246 | the poll abandons the attempt and kills the daemon if the old one has exited or the export failed; otherwise it goes on unless a row was seen |
| HandoffPoints.MidPointPaused | xtask/src/handoff_abort_slice.rs:1148-1181 | point B counts the terminals of a live daemon while the watched pane is paused and the old daemon is not serving |
| HandoffPoints.OldCanGiveUp | crates/arreo-server/src/daemon.rs:4690-4892 | until the last master is sent the old daemon can give up on its own at every stage, and then serves every pane with one abort if it had replied |
| HandoffPoints.CutCanAlwaysAbort | crates/arreo-server/src/daemon.rs:4690-4892 | in every state before the marker the incoming daemon can fail, and the old one can then serve every pane again, with one abort exactly if it was in the cut |
| HandoffPoints.CommitIsFinal | crates/arreo-server/src/daemon.rs:5055-5086 | after the commit every continuation has one row, every pump parked and the old daemon leaving or gone, and a daemon that asks is refused for good |
| HandoffRetry.AbortThenRetry | xtask/src/handoff_abort_slice.rs:1285-1552 | over every interleaving of recovery, retries and clock: bounded by deferrals and ticks; no row and nothing sent while recovering, serving where the old daemon can take no step, every pump running once it serves; a request during the recovery is answered busy and changes nothing else; recorded and owed aborts add up; at rest only with the same panes carried |
| HandoffRetry.AbortOfAnyRun | xtask/src/handoff_abort_slice.rs:14-35 | the same from the start, for every run that kills the incoming daemon at any moment before the marker; one abort is recorded if the old daemon had replied and was in that cut, none otherwise |
| HandoffRetry.UnansweredLeavesNoAbort | crates/arreo-server/src/daemon.rs:4771-4790 | a daemon killed between its request and the reply leaves the old one serving with no abort and no row |
| HandoffRetry.MidPointAborts | xtask/src/handoff_abort_slice.rs:1180-1192 | a daemon killed at point B before its last terminal arrived leaves such an aborted cut |
| HandoffRetry.RecoveryStep | crates/arreo-server/src/daemon.rs:4860-4892 | every step of an old daemon without a live peer brings it closer to serving, and the abort it owes, if it had replied, is recorded after the pumps resume and before the lock is free |
| HandoffRetry.RetryCanSucceed | xtask/src/handoff_abort_slice.rs:1467-1499 | from every aborted cut some run without deferrals carries the panes |
| HandoffRetry.StepForward | xtask/src/handoff_abort_slice.rs:1487-1539 | every step of the retry loop stays recovering or retrying, does work or passes time, and keeps the sum of recorded and owed aborts |
| HandoffPoints.FailedRetryIsLast | xtask/src/handoff_abort_slice.rs:1518-1539 | a retry that fails otherwise than by a busy answer is the last one |
| HandoffStream.StreamWholeExactly | xtask/src/handoff_abort_slice.rs:1600-1620 | what the daemon that has the pane holds, and what waits in the terminal, is every tick once and in order in every run of handoff, ticks and reads, if and only if the commit wait is at least the time to the marker |
| HandoffStream.ClientSeesOneStream | xtask/src/handoff_abort_slice.rs:1602-1620 | the transcript then reads back as contiguous ticks of one pid from the first on, across aborts and the cut |
| KillPoints.RunPoint | xtask/src/handoff_abort_slice.rs:977-1002 | points A and B are tried once; at point C the first of eight attempts that did not miss its window is returned unchanged, and a missed window is returned if and only if all eight missed, then with a failure added |
| KillPoints.GreenPoint | xtask/src/handoff_abort_slice.rs:977-1002 | a green point C had an attempt that reached its assertions with every terminal arrived, no row and nothing that can still commit, and no marker unless the commit wait could expire under it |
| Ticks.ParseTickLine | xtask/src/handoff_abort_slice.rs:814-823 | parsing a printed tick gives back its number and pid |
| Ticks.LooseTick | xtask/src/handoff_abort_slice.rs:814-823 | any text may stand between the counter and the word, blanks around the pid are trimmed, what follows a second word is not looked at, and a number too large for its machine word is no tick |
| Ticks.NoTick | xtask/src/handoff_abort_slice.rs:814-823 | a line without the prefix, without a digit after it or without the word is no tick |
| Ticks.ContiguityProblem | xtask/src/handoff_abort_slice.rs:946-967 | no problem if and only if there are two ticks, one pid, and every two ticks differ by their distance; otherwise the first problem, its kind and place, the count, or the overflow panic |
| Ticks.JudgePairs | xtask/src/handoff_abort_slice.rs:951-966 | comparing neighbours decides the property of all pairs |
| Ticks.TranscriptStaysContiguous | xtask/src/handoff_abort_slice.rs:1385-1412 | for every schedule of ticks, echoed lines, pump moves, pauses, resumes and attaches over a blocking buffer of any capacity, the ticks of client transcript and ring stay contiguous with one pid, the buffer within its capacity and the ring within 512 lines |
| Ticks.PauseHoldsStill | xtask/src/handoff_abort_slice.rs:1385-1412 | while the pump is paused neither ring nor client changes, and the buffer only grows |
| Ticks.AttachedAtAnyTime | xtask/src/handoff_abort_slice.rs:1385-1412 | a client that attaches gets the ring, and from then on the ring is the last 512 lines of what the client has |
| Ticks.AttachedFromTheStart | xtask/src/handoff_abort_slice.rs:1385-1412 | a client attached from the start misses no tick the script has printed, but for those still in the buffer |
| Json.JsonEscape | xtask/src/mesh_slice.rs:826-840 | the escaping loop |
| Json.JsonString | xtask/src/demo.rs:173-186 | the escaping loop between quotes |
| Json.DecodeEscaped | xtask/src/mesh_slice.rs:826-840 | decoding by section 7 of RFC 8259 gives back every text, for both escapers |
| Json.EscapeTable | xtask/src/mesh_slice.rs:826-840 | the table of both escapers, spelled out |
| Json.ScanEscaped | xtask/src/mesh_slice.rs:808-820 | the quote scan over escaped text stops exactly at its end, whatever follows |
| JsonFields.ScanStopsBy | xtask/src/mesh_slice.rs:811-820 | the scan never passes a quote that no backslash precedes |
| JsonFields.RewriteField | xtask/src/mesh_slice.rs:801-823 | the scanning loop rewrites exactly the located value, and fails exactly when the field or its end is missing |
| JsonPretty.RewritePrinted | xtask/src/mesh_slice.rs:797-823 | for every document of a pretty printer with plain distinct names and any texts, rewriting a field with an escaped text is printing the document with that text in its place |
| JsonPretty.RewriteMissing | xtask/src/mesh_slice.rs:802-807 | a name the printed document does not have is reported as missing, also when a value spells it |
| JsonFields.LastWriteWins | xtask/src/mesh_slice.rs:801-823 | a rewritten field reads back as written, and a second rewrite equals rewriting the original |
| JsonFields.RewrittenTextReadsBack | xtask/src/mesh_slice.rs:1185-1185 | the escaped text of a rewritten field decodes to the text |
| JsonFields.EarlierPlace | xtask/src/mesh_slice.rs:801-823 | rewriting the later field leaves the earlier one where it is, even when its value runs into the later one |
| JsonFields.LaterPlace | xtask/src/mesh_slice.rs:801-823 | rewriting the earlier field moves the later one by the change in length, unless the value ran into it |
| JsonFields.FailsAfterToo | xtask/src/mesh_slice.rs:803-822 | a field that cannot be rewritten cannot be rewritten after the other one either |
| JsonFields.RewritesCommute | xtask/src/mesh_slice.rs:1185-1202 | unless a value runs into the other field, both orders give the same document or both fail |
| JsonFields.RewritesCommuteExactly | xtask/src/mesh_slice.rs:801-823 | the orders agree for all one-line values if and only if neither value runs into the other field's name |
| JsonFields.RunsIntoIsInside | xtask/src/mesh_slice.rs:802-817 | a value runs into a field exactly when that field's first needle starts inside it |
| JsonFields.OneLineRunsIntoNothing | xtask/src/mesh_slice.rs:797-800 | a value on one line never does |
| JsonFields.RunOnOrdersDiffer | xtask/src/mesh_slice.rs:797-800 | every two names have a document where it does, and there one order fails and the other succeeds for all one-line values |
| Retag.RetagVersion | xtask/src/update_slice.rs:704-724 | the in-place loop yields the leftmost non-overlapping replacement of the original bytes, counts the matches, fails if and only if there are none or the lengths differ, and panics on two empty versions |
| Retag.AllSearched | xtask/src/update_slice.rs:714-718 | each search that resumes after a match finds the next one |
| Retag.MatchesAreLeftmost | xtask/src/update_slice.rs:714-719 | the windows are matches, apart, in order, and every match starts inside one |
| Retag.LeftmostIsUnique | xtask/src/update_slice.rs:714-719 | those conditions determine the windows |
| Retag.ReplacedInside | xtask/src/update_slice.rs:716-716 | every window ends up holding the new version |
| Retag.ReplacedOutside | xtask/src/update_slice.rs:697-702 | no byte outside the windows changes |
| SameBytes.Fill | xtask/src/update_slice.rs:2057-2068 | for every schedule of short and interrupted reads, the buffer or the rest of the file, whichever is shorter, with exactly those bytes |
| SameBytes.SameBytes | xtask/src/update_slice.rs:2021-2052 | an answer is true if and only if the whole contents are equal; only a read that fails for good withholds it |
| Panes.ParsePane | xtask/src/update_slice.rs:1952-1968 | the loop over whole lines |
| Panes.VerdictIsExact | xtask/src/update_slice.rs:986-990 | for every history, shown among blank, broken and unrelated lines, the read has its starts, the runs that ticked and the maximum, and the filter accepts if and only if there was one start and it passed the earlier reading |
| Panes.RisingTickIsNotEvidence | xtask/src/update_slice.rs:981-985 | a restarted counter that overtook the old one has risen and is still refused |
| Panes.VerdictOnAnyScrollback | xtask/src/update_slice.rs:986-990 | on any scrollback, also one that lost its beginning, the filter accepts if and only if it shows one marker, one first tick and a tick beyond the earlier reading |
| Panes.MarkersDiffer | xtask/src/update_slice.rs:94-96 | no two panes share a marker |
| Sgr.SgrParams | xtask/src/theme_slice.rs:736-756 | the loop returns the concatenated parameters of all sequences |
| Sgr.SgrSetsModifier | xtask/src/theme_slice.rs:765-790 | true if and only if some sequence carries the code and neither 38 nor 48 |
| Sgr.HasColorSgr | xtask/src/theme_slice.rs:806-835 | true if and only if the parameters contain a colour code, the ranges written out |
| Sgr.CarriedColorIsSeen | xtask/src/theme_slice.rs:793-802 | a carried colour is seen by the colour detector |
| Sgr.CarriesExactly | xtask/src/theme_slice.rs:793-802 | a colour is carried if and only if its five or three numbers stand in a row among the parameters; no colour never is |
| Sgr.ModifierIsListed | xtask/src/theme_slice.rs:758-764 | a detected modifier is among the parameters |
| Sgr.ScannerInvertsPrinting | xtask/src/theme_slice.rs:730-756 | for every interleaving of escape-free text, styling sequences, control sequences with any other final letter and lone escapes, the scanner returns exactly the numeric parameters of the styling sequences, sequence by sequence |
| Sgr.GroupsUnfinished | xtask/src/theme_slice.rs:736-756 | a sequence the text cuts off counts for nothing |
| Report.ToJson | xtask/src/bench.rs:185-204 | the indexed loop prints the report |
| Report.CheckPrinted | xtask/src/bench.rs:192-199 | the text of a check, against the format written out |
| Report.ReportPrinted | xtask/src/bench.rs:181-204 | the text of a report, against the format written out; the verdict is positive if and only if every check passed |
| Report.CountParts | xtask/src/demo.rs:165-171 | counting a quoted word with a quote-free tail counts the places that spell it |
| Report.CountsAgree | xtask/src/demo.rs:165-171 | for quote-free strings the passing checks are counted exactly and the checks exactly if and only if no string is `name`; the overall verdict is never counted |
| Report.NameStringsZero | xtask/src/demo.rs:169-169 | that condition, string by string |
| Surface.GeneratedSymbols | xtask/src/ffi.rs:431-444 | the loop returns the tokens of the text, in order |
| Surface.DeclaredSymbols | xtask/src/ffi.rs:431-444 | of a file of declarations and other text the scan returns exactly the declared symbols, in order |
| Surface.SpansAreTokens | xtask/src/ffi.rs:435-442 | each token starts with the needle, is an identifier that cannot be extended to the right, and they follow each other |
| Surface.NeedleIsInToken | xtask/src/ffi.rs:430-444 | every occurrence of the needle lies inside a token |
| Surface.NeedleInOneToken | xtask/src/ffi.rs:430-444 | and in only one |
| Surface.AssertSurface | xtask/src/ffi.rs:397-428 | it passes if and only if every golden symbol occurs and every generated function is named; otherwise the absent symbols in the order of the list, or the unnamed ones and the first of them in order |
| Surface.AbsentExactly | xtask/src/ffi.rs:398-403 | the absent symbols are exactly the golden ones the file does not spell |
| Surface.AtMostIsLexical | xtask/src/ffi.rs:417-420 | the order in which the first unnamed symbol is found is the lexical one |
| Surface.GoldenFunctionIsGenerated | xtask/src/ffi.rs:386-396 | when it passes, each golden function is spelled inside a generated token the list names, and is that token or a proper prefix of it when no symbol of the list spells the needle twice |
| Surface.HiddenGoldenFunction | xtask/src/ffi.rs:400-401 | when one does, a file can pass that generates neither the golden function nor anything it is a prefix of |
| Golden.GoldenNeedleOnce | xtask/src/ffi.rs:74-174 | no symbol of the code's own list spells the needle twice |
| Golden.GoldenListIsGenerated | xtask/src/ffi.rs:386-396 | so for that list a passing check means every golden function is generated, or is a proper prefix of a generated symbol the list names |
| Links.MarkdownLinks | xtask/src/release_check.rs:531-569 | the loop over lines collects the inline and reference links of each |
| Links.ScanTarget | xtask/src/release_check.rs:542-554 | the depth counter never underflows and stops at the matching parenthesis |
| Links.InlineInvertsWriting | xtask/src/release_check.rs:534-557 | for text free of the opener and targets balanced to any depth the scan returns exactly the cleaned targets |
| Links.CleanTakesPadding | xtask/src/release_check.rs:555-556 | cleaning takes the blanks and then the quotes around a target, and nothing else |
| Links.InlineShape | xtask/src/release_check.rs:534-557 | one inline link in plain text, spelled out |
| Links.UnclosedRunsOn | xtask/src/release_check.rs:542-557 | a link that is never closed runs to the end of the line |
| Links.ReferenceExactly | xtask/src/release_check.rs:558-566 | a line yields one reference link exactly when it begins with a bracket, has the mark, and has text after it |
| Links.LineInvertsWriting | xtask/src/release_check.rs:533-566 | a line of links returns its targets and nothing else if and only if it is no such line |
| Links.WrittenLineReadsBack | xtask/src/release_check.rs:533-566 | where no text spells the mark, it does if and only if the line does not begin with a bracket or no target spells the mark |
| Links.MarkedTargetAddsLink | xtask/src/release_check.rs:558-566 | for every text and target that spells the mark, the rest of the target comes back as a second link |
| Links.TextInvertsWriting | xtask/src/release_check.rs:531-569 | a text of written lines returns all targets in order and nothing else if and only if no line looks like a definition |
| Links.ReferenceReadsBack | xtask/src/release_check.rs:558-566 | a reference definition returns its target |
| Links.ReferenceShape | xtask/src/release_check.rs:558-566 | a definition, spelled out |

## Left out

- JsonFields.RewriteField: scans characters where the code scans bytes; the two agree because no byte of a multi-byte character is a quote or a backslash.
- Retag.RetagVersion: reading and writing the file is not modelled.
- SameBytes.SameBytes: errors of opening a file and of reading its length are not modelled.
- Surface.AssertSurface: the wording of the messages is not modelled.
- KillPoints.RunPoint: the message of the added failure is not modelled.
- The handoff's transport (descriptor passing, nonce, peer identity, protocol versions), enforcement guards and manifest limits: a failure before the reply is `Refuse`, one after it a step to `GaveUp`. The old daemon takes a request in the step that sends it.
- A marker is assumed to be acted on within a bound, a live incoming daemon to send its marker or fail within another, and a stopped process to take no step: `Handoff.MayAdvance` and `Handoff.DoIncoming`. The other deadlines of the transfer are steps that may happen at any time.
- HandoffRetry.AbortThenRetry: a retry that fails on its own account ends the slice with a failure and is not among its steps; nor is the deadline after which the slice stops retrying.
- Ticks.TranscriptStaysContiguous: the script's lines are written whole.
- Process spawning, sockets, ptys, `/proc` reads, deadlines and evidence files: only the decisions made on what was observed are modelled.
- The remaining slices, parsers and command runners of the repository: they would only add easy members.
