# Glasshouse, verified models

Dafny models of the parts of Glasshouse that keep state or have to agree with something else, and proofs of what they
promise. `dafny verify dfyconfig.toml` checks everything.

| module | models |
|---|---|
| `Shutdown` | who owns the terminal: raw mode, the engaged flag, the latch, signals and forced exits, as threads that interleave atomic step by atomic step |
| `ForcedExit` | the registry of forced-exit cleanups, its lock, counter, guards and reverse run, over the same kind of steps |
| `TuiCheck` | the terminal emulator that reads a child's output in arbitrary pieces |
| `LaunchEnv` | the environment operations of a launch, kept one per variable, against the full history of calls |
| `Partition` | the gate that keeps the packets of a round from claiming the same path |
| `FrameBank` | the writer and the reader of the startup animation |
| `DiffScan` | the line numberer over unified diffs, against the diffs `git` prints |
| `MapIndex` | the index of capability boxes and its drift report |
| `Splice`, `Progress` | the progress block in the README, and the phase accounting it shows |
| `TestBlocks` | finding test code in a Rust file by counting braces |
| `Limits` | whose token limits a model is given |
| `Models` | the figures the gateway knows: overlay, import, observed and served windows |
| `Pool` | from an account catalogue to backends, and from a request to the backend that carries it |
| `Text` | the pieces of Python's string library the scripts use |

Code that changes things in place is a class or a method with loops, proved equal to a specification function;
the theorems are about those functions. Concurrent code is a step system whose runs are all interleavings; the classes
`Process` and `Registry` are proved to be its uninterrupted runs.

## Where the code and its promises part

Each is stated as an exact condition or with a concrete witness.

- A forced exit gives the terminal back only if the flag is up at its swap. An engage that completes between that swap
  and the exit leaves raw mode on (`Shutdown.ForcedExitCanLeaveRawOn`); the flag at the exit says so, exactly as long as
  no acquire overlaps a restore (`Shutdown.ForcedExitLeavesRawOffIff`, `Shutdown.ExitFollowsTheFlagIff`).
- A restore that has swapped the flag can switch off the raw mode a later acquire has just switched on, and the flag
  then stands over a cooked terminal. That is reachable from every overlap and only through one
  (`Shutdown.FlagStaysTrueIff`), and an overlap from every state in which one thread can acquire and another restore
  (`Shutdown.OverlapAheadIff`).
- A thread that enters the alternate screen after another took its flag down leaves the user there
  (`Shutdown.ScreenStaysOwnedIff`), and one that enters it while an earlier restore is under way loses it again
  (`Shutdown.ScreenStaysKeptIff`).
- A control sequence survives any cut between reads; the body of an operating-system command never does
  (`TuiCheck.CutIsInvisibleIff`).
- Two packets whose overlapping patterns differ can pass the gate in one order and fail it in the other, because only
  the first packet's pattern is looked up, and only the second one's exceptions (`Partition.OrderDoesNotMatterIff`,
  `Partition.OrderCanMatter`). Two general globs overlap in one direction only when `fnmatch` matches in one direction
  only (`Partition.OverlapIsSymmetric`).
- A frame row that starts with `%` or `@` is taken for a header or a frame mark (`FrameBank.RoundTripIff`).
- An added line that starts with `++` is taken for a file header, a missing-newline marker counts as a line, and the TAB
  or the quotes that `git` prints with some paths are taken for part of the path (`DiffScan.AddedLinesAreNumberedIff`).
- A box under a `Maybe` heading above the experimental section, or under that section's heading repeated after a phase,
  is in no phase and is not parked either (`Progress.LostIff`); with that heading above the start, boxes
  above the start are parked as well (`Progress.ConservedIff`).
- A test block is promised to end at the matching brace; depth is only looked at where lines end
  (`TestBlocks.BlockEndsAtItsMatchIff`).
- Of two published names that normalise alike, the later replaces the earlier whole, although overlays go figure by
  figure (`Models.ImportedIsFound`). Which of two equally narrow windows, or equally new refusals, is reported
  depends on the order they are scanned in (`Models.AnyOrderIff`), and the narrowest window keeps its own output maximum
  (`Models.OutputIsLeastIff`).
- A base URL of slashes alone passes the emptiness check and becomes an empty route; only building the backend refuses
  it (`Pool.RouteIsEmptyIff`).

## Model

| member | source | states |
|---|---|---|
| `Shutdown.RawIsNeverStranded` | crates/glasshouse/src/shutdown.rs:94-100 | In every interleaving of acquires, restores and signals: raw mode is on with the engaged flag down only while some thread stands between switching raw mode on and the engaged store, or between the swap and switching it off; and restore sequences never outnumber engages |
| `Shutdown.ForcedExitLeavesRawOffIff` | crates/glasshouse/src/shutdown.rs:240-244 | At a forced exit with no thread in such a window, raw mode is off whenever the flag is down, which it is unless an engage completed since the exiting thread's own swap; and in a run without an overlap of an acquire and a restore it is off only then |
| `Shutdown.ExitFollowsTheFlagIff` | crates/glasshouse/src/shutdown.rs:240-244 | What overlaps do to it: while a thread waits to end the process, the flag decides what every exit leaves behind if and only if no overlap can follow |
| `Shutdown.ForcedExitCanLeaveRawOn` | crates/glasshouse/src/shutdown.rs:240-244 | The flag can be up at the exit: an engage that completes after the swap leaves raw mode on, with no thread in a window |
| `Shutdown.EngagedCanLoseRawMode` | crates/glasshouse/src/shutdown.rs:94-100 | The flag can stay up over a terminal whose raw mode is off: a restore that swapped before an overlapping acquire switches the new raw mode off |
| `Shutdown.FlagIsRawMode` | crates/glasshouse/src/shutdown.rs:224-227 | In a run in which no acquire overlaps a restore, whenever no thread stands in a window the flag is up exactly when raw mode is on |
| `Shutdown.FlagStaysTrueIff` | crates/glasshouse/src/shutdown.rs:94-100 | After any such run, every continuation keeps the flag equal to raw mode outside the windows if and only if no continuation reaches an overlap |
| `Shutdown.OverlapAheadIff` | crates/glasshouse/src/shutdown.rs:94-100 | An overlap lies ahead exactly when, as the threads stand, the process is running, one thread can still acquire the terminal and another has not made its last restore; a thread on its way to the exit, or whose signal will not be the first, can no longer acquire |
| `Shutdown.OverlapBreaksTheFlag` | crates/glasshouse/src/shutdown.rs:94-100 | From every overlap, with any number of other threads, a continuation leads to the flag up over a terminal whose raw mode is off, with no thread in a window |
| `Shutdown.ScreenStaysOwnedIff` | crates/glasshouse/src/shutdown.rs:314-334 | The alternate screen stays up only under the flag or a restore under way, in every continuation, if and only if in none of them a thread enters it after the flag it put up was taken down |
| `Shutdown.ScreenStaysKeptIff` | crates/glasshouse/src/shutdown.rs:314-334 | The opposite loss: an alternate screen acquired since the flag was last taken down stays up in every continuation if and only if in none of them a thread enters it while a restore begun before is still under way |
| `Shutdown.OneSignalAsks` | crates/glasshouse/src/shutdown.rs:208-217 | Of all signals that reach the counter in any run, the first is answered by asking to stop and every later one by no longer waiting: exactly one asks |
| `Shutdown.NoLeavesAfterAnEngage` | crates/glasshouse/src/shutdown.rs:208-217 | Once an engage has stored either flag, no signal is ever again answered by leaving immediately, and the latch never clears |
| `Shutdown.AnswersAreFollowed` | crates/glasshouse/src/shutdown.rs:169-175 | In every interleaving: once a signal was answered by asking to stop, the shutdown is requested or the answering thread is about to request it; as many threads are inside the forced exit as signals were answered by forcing; only such a thread ends the process; and no signal is counted before the terminal was first held |
| `Shutdown.RequestIsKept` | crates/glasshouse/src/shutdown.rs:109-111 | The request never clears |
| `Shutdown.OnlyAsksRequest` | crates/glasshouse/src/shutdown.rs:109-111 | Where nothing but signals asks for it, the shutdown is requested only after a signal was answered by asking |
| `Shutdown.ForcedGoesOn` | crates/glasshouse/src/shutdown.rs:240-244 | A thread whose signal was answered by forcing stays inside the forced exit in every continuation |
| `Shutdown.ForcedReachesTheExit` | crates/glasshouse/src/shutdown.rs:240-244 | Such a thread can bring the process to its end by its own turns alone, in at most eight |
| `Shutdown.AloneIsARun` | crates/glasshouse/src/shutdown.rs:94-111 | A thread that runs uninterrupted is one of the schedules, so what the methods of the process do is a run of the step system |
| `Shutdown.Process.RestoreTerminal` | crates/glasshouse/src/shutdown.rs:94-100 | Uninterrupted: the thread's own steps from idle to idle; switches raw mode off, leaves the alternate screen and writes one restore sequence if the terminal was engaged, and changes nothing otherwise |
| `Shutdown.Process.EngageTerminal` | crates/glasshouse/src/shutdown.rs:224-227 | Uninterrupted: both flags are up, by the two stores of the protocol in their order, and nothing else has changed |
| `Shutdown.Process.AcquireRaw` | crates/glasshouse/src/shutdown.rs:365-371 | Uninterrupted steps: raw mode on and both flags up, or nothing changed when raw mode fails |
| `Shutdown.Process.AcquireTerminal` | crates/glasshouse/src/shutdown.rs:314-334 | Uninterrupted steps, with both calls that can fail: a guard that failed on the alternate screen, before or after entering it, has restored the terminal exactly once |
| `Shutdown.Process.RequestShutdown` | crates/glasshouse/src/shutdown.rs:109-111 | Uninterrupted steps: sets the request and touches nothing else |
| `Shutdown.Process.InterpretSignal` | crates/glasshouse/src/shutdown.rs:208-217 | Uninterrupted steps up to the answer: leaves immediately exactly when neither flag is up; otherwise counts the signal and forces exactly when one was counted before |
| `Shutdown.Process.ForceExit` | crates/glasshouse/src/shutdown.rs:240-244 | Uninterrupted steps, with one restore by the panic hook for each cleanup that panics: exits with the flag down, restoring at most once however many panic, and with raw mode off unless it was on without the flag |
| `Shutdown.Process.HandleSignal` | crates/glasshouse/src/shutdown.rs:169-175 | Uninterrupted steps from the signal to its end: exits exactly when the terminal was never engaged or a signal was counted before, and otherwise requests the shutdown and goes on |
| `ForcedExit.RegistryHoldsTheLive` | crates/glasshouse/src/shutdown.rs:262-303 | At every step of every interleaving the registry is the registrations whose guard lives or is still being dropped, in push order, under distinct identifiers below the counter |
| `ForcedExit.DropTakesItsOwn` | crates/glasshouse/src/shutdown.rs:297-303 | A drop takes out exactly one entry, its own, and the others keep their order |
| `ForcedExit.ForcedRunCallsEachOnce` | crates/glasshouse/src/shutdown.rs:270-286 | Whenever a forced run that got the lock comes to its end, in any interleaving, it has called the registry as it stands, newest first: the entry of every live guard and of no other, each once, whichever of them panic |
| `ForcedExit.ForcedRunsCalledNoneTwice` | crates/glasshouse/src/shutdown.rs:270-286 | Every forced run that ever ended called what it found under the lock in reverse, and no identifier twice |
| `ForcedExit.Registry.OnForcedExit` | crates/glasshouse/src/shutdown.rs:262-268 | Appends the cleanup under the next identifier |
| `ForcedExit.Registry.Drop` | crates/glasshouse/src/shutdown.rs:297-303 | Leaves the entries with any other identifier, in order |
| `ForcedExit.Registry.RunForcedExitCleanup` | crates/glasshouse/src/shutdown.rs:270-286 | Calls all entries in reverse when the lock is free, none when it is not, and stops for no panic |
| `ForcedExit.RegistrationAlone` | crates/glasshouse/src/shutdown.rs:262-268 | The uninterrupted steps of a registration are the method |
| `ForcedExit.DropAlone` | crates/glasshouse/src/shutdown.rs:297-303 | The uninterrupted steps of a drop are the method |
| `ForcedExit.ForcedAlone` | crates/glasshouse/src/shutdown.rs:270-286 | The uninterrupted steps of a forced run call every entry in reverse and give the lock back when it was free, and call nothing and do not wait when it was held |
| `TuiCheck.CutIsInvisibleIff` | scripts/tui-check.py:110-147 | For every stream and every cut: the two reads perform the same actions and hold back the same tail as one read if and only if the cut does not fall inside the body of an operating-system command that the later text finishes |
| `TuiCheck.CutInsideOsc` | scripts/tui-check.py:121-147 | Inside such a body a cut always adds visible actions, whatever follows |
| `TuiCheck.TwoReadsAreOne` | scripts/tui-check.py:110-147 | Outside such bodies, two reads leave the same grid, cursor and held-back text as one |
| `TuiCheck.ReadsDoNotMatter` | scripts/tui-check.py:110-147 | A stream without `ESC ]`, cut into any number of reads anywhere, leaves the screen one read of the whole would |
| `TuiCheck.SplitTitleIsPrinted` | scripts/tui-check.py:121-147 | A window title that is silent in one read becomes visible when it is cut |
| `TuiCheck.TailIsSettled` | scripts/tui-check.py:110-147 | Held-back text performs nothing and stays held back until more arrives |
| `TuiCheck.HeldIff` | scripts/tui-check.py:144-147 | A read holds back exactly a lone escape, the start of a control sequence with any parameters, or the two characters that open a command or choose a character set |
| `TuiCheck.CursorIsPlaced` | scripts/tui-check.py:149-153 | A cursor report of any two numbers puts the cursor at that row and column, counted from one, and changes no cell |
| `TuiCheck.CursorIsPlacedShort` | scripts/tui-check.py:149-153 | A report without a column goes to the first column of its row, and an empty one to the corner |
| `TuiCheck.CursorMoves` | scripts/tui-check.py:161-168 | A count moves the cursor up, down, right or left by that much and not off the grid, whatever follows the count |
| `TuiCheck.CursorMovesByOne` | scripts/tui-check.py:161-168 | No count is a count of one |
| `TuiCheck.DisplayIsErased` | scripts/tui-check.py:154-156 | The erase of the display, bare or numbered two, blanks every cell and takes the cursor to the corner |
| `TuiCheck.OtherErasesAreIgnored` | scripts/tui-check.py:154-156 | Any other number leaves the screen as it is |
| `TuiCheck.LineIsErased` | scripts/tui-check.py:157-160 | The erase of a line blanks exactly the cells of the cursor's row from its column on, and does not move the cursor |
| `TuiCheck.OtherSequencesAreSilent` | scripts/tui-check.py:149-168 | Every other control sequence leaves the screen as it is |
| `TuiCheck.QuestionMarksAreIgnored` | scripts/tui-check.py:150-150 | A question mark anywhere among the parameters, and a leading separator, change nothing |
| `TuiCheck.CharacterIsPrinted` | scripts/tui-check.py:138-142 | A printable character takes the cursor's cell and no other, if the cursor stands in the grid, and moves the cursor one to the right |
| `TuiCheck.ControlCharacters` | scripts/tui-check.py:132-138 | A return, a line feed and a backspace move the cursor and stop at the edge, and every other control character does nothing |
| `TuiCheck.CharsetIsSilent` | scripts/tui-check.py:100-130 | A choice of character set is skipped |
| `TuiCheck.CommandIsSilent` | scripts/tui-check.py:101-130 | A whole operating-system command is skipped, whichever way it ends |
| `TuiCheck.StrayEscapeIsDropped` | scripts/tui-check.py:116-130 | An escape that opens nothing is dropped, and what follows is read as if it stood alone |
| `TuiCheck.BrokenSequenceIsPrinted` | scripts/tui-check.py:116-130 | The parameters of a control sequence that a character breaks off are read as text |
| `TuiCheck.Performed` | scripts/tui-check.py:103-143 | Printing keeps the grid rows by columns and both coordinates at least -1, with every index it uses in range |
| `TuiCheck.ControlCells` | scripts/tui-check.py:149-168 | A control sequence keeps the grid rows by columns and both coordinates at least -1, including the cursor reports that put one at -1; what each does is stated by the rows above |
| `TuiCheck.Screen.Feed` | scripts/tui-check.py:110-143 | The loop over the text leaves exactly the specified grid, cursor and tail, for every string |
| `TuiCheck.Screen.Consume` | scripts/tui-check.py:116-143 | One turn of the loop: the longest lexeme is consumed and performed, or the rest is held back untouched |
| `TuiCheck.Screen.Type` | scripts/tui-check.py:131-143 | One character outside an escape sequence, in place |
| `TuiCheck.Screen.Csi` | scripts/tui-check.py:149-168 | One control sequence, in place |
| `TuiCheck.Screen.EraseLine` | scripts/tui-check.py:156-164 | Erases one row from the cursor on and no other row |
| `Partition.OverlapIsASharedPath` | scripts/validate_round.py:173-211 | Over exact and directory patterns, two patterns overlap if and only if some path is claimed by both |
| `Partition.OverlapIsSymmetric` | scripts/validate_round.py:189-211 | Overlap is symmetric except exactly where both are general globs, differ, and `fnmatch` tells them apart by direction |
| `Partition.PatternClaims` | scripts/validate_round.py:173-211 | A pattern that ends in `/**` claims its directory and everything below it, and one without a star claims itself alone |
| `Partition.GlobsOverlap` | scripts/validate_round.py:203-210 | A root glob meets exactly the root paths it matches and itself, and a general glob the paths it matches, itself, and the globs whose spelling it matches |
| `Partition.DirectoryOverlapsGlob` | scripts/validate_round.py:194-202 | A directory meets no root glob, and meets a general one that is spelled below it or matches it |
| `Partition.ExceptionCoversIff` | scripts/validate_round.py:183-186 | An exception covers a path exactly when both are the same list of segments, or one is a proper end of the other |
| `Partition.LineDeclares` | scripts/validate_round.py:354-358 | A declaration in any spacing and any number of backticks names exactly its path |
| `Partition.DeclaredIff` | scripts/validate_round.py:354-358 | Where every declaration names its path on its own line, the declared paths are exactly those named |
| `Partition.DeclaredAcross` | scripts/validate_round.py:354-358 | A declaration that ends its line takes its path from the next line with text |
| `Partition.GateIsExact` | scripts/validate_round.py:361-405 | Over such patterns, the gate reports nothing if and only if every two claims of two packets that share a path are declared as a co-edit, by the first packet's pattern, in both packets, or the second claim's exception covers the first pattern, segment by segment |
| `Partition.CollisionsAreClean` | scripts/validate_round.py:361-405 | The gate reports nothing if and only if no pair of claims of two different packets collides, whatever `fnmatch` answers |
| `Partition.CollisionsAreAll` | scripts/validate_round.py:361-405 | The report holds every collision of a claim with one of a later packet and nothing else |
| `Partition.CollisionsAreSorted` | scripts/validate_round.py:361-405 | It is in order, packet by packet and claim by claim, and holds no finding twice |
| `Partition.FoundIff` | scripts/validate_round.py:370-405 | A finding stands exactly for two claims that overlap, the second not excepting the first, whose first pattern is declared in at most one of the two packets, and it says in which |
| `Partition.OtherExceptionsHideNothing` | scripts/validate_round.py:183-186 | A packet that claims a directory except one file still collides with a packet that claims another file in it |
| `Partition.OrderDoesNotMatterIff` | scripts/validate_round.py:361-405 | Two packets with any claims and exceptions get the same verdict in both orders if and only if both, or neither, have a claim whose own pattern is neither declared in both nor excepted where it shares a path with the other's; in particular when sharing claims are spelled and excepted alike |
| `Partition.OrderCanMatter` | scripts/validate_round.py:361-405 | Two packets that pass in one order and fail in the other: one claims a directory, which both declare, and the other a file in it |
| `Partition.CheckPartitionsDisjoint` | scripts/validate_round.py:361-405 | The nested loops append every collision, pair by pair, after the findings there were |
| `Partition.CheckPair` | scripts/validate_round.py:366-405 | All collisions of two packets, in claim order |
| `Partition.CheckClaims` | scripts/validate_round.py:370-405 | The finding for one pair of claims, with which of the two packets declared it |
| `Partition.ParseIndentedBlock` | scripts/validate_round.py:64-90 | The items of the block are the indented lines with text up to the first other line, numbered from one |
| `Partition.ItemsAre` | scripts/validate_round.py:64-90 | The block ends at the first line that is neither blank nor indented, and its items are exactly the lines with text before that, stripped, in order |
| `FrameBank.RoundTripIff` | assets/startup/pack.py:44-80 | For all frames of one shape: reading what was written gives the same grid size and frames if and only if every row holds no line break, starts with neither `%` nor `@`, and ends in no whitespace but spaces; blank frames and dropped rows included |
| `FrameBank.FrameCanBeLost` | assets/startup/pack.py:44-80 | A frame of one cell that is not read back |
| `FrameBank.PlainBankIsRead` | assets/startup/play.py:28-51 | Trailing whitespace of any kind is read back as spaces, and all the rest of the bank as it was |
| `FrameBank.HeaderIs` | assets/startup/pack.py:60-72 | The header as it stands in the file, line by line |
| `FrameBank.HeaderIsRead` | assets/startup/play.py:28-51 | Reading the header gives every entry and every tier back, and no frame |
| `FrameBank.FrameStands` | assets/startup/pack.py:73-78 | Each frame stands under its own mark, numbered from zero, with its trimmed rows |
| `FrameBank.GridIff` | assets/startup/play.py:48-48 | The grid entry is read exactly when it is two numbers in digits with whitespace between and around them at most, as those numbers |
| `FrameBank.LoadedFramesArePlain` | assets/startup/play.py:28-51 | No file at all makes a frame whose row starts with a marker or holds a line break |
| `FrameBank.Load` | assets/startup/play.py:28-51 | The line loop: comments, header entries, tiers, frame marks and rows, then padding, or an error without a grid |
| `FrameBank.Pack` | assets/startup/pack.py:44-80 | Refuses frames of unequal shape and otherwise writes header and trimmed frames in order |
| `FrameBank.DropBlankRows` | assets/startup/pack.py:72-80 | Drops the trailing blank rows of a frame and no others |
| `FrameBank.FrameSurvivesIff` | assets/startup/pack.py:72-80 | Trimming and padding gives a frame back exactly when its trailing whitespace is spaces |
| `FrameBank.PaddedIs` | assets/startup/play.py:49-49 | A loaded row is the row of the file with spaces after it, cut at the width of the grid |
| `DiffScan.AddedLinesAreNumberedIff` | scripts/check-secrets.py:291-319 | Over every unified diff of any files and hunks, with line endings of either kind: the scanner yields exactly the added lines, in order, with new-file path and line number, less a final carriage return of their content, if and only if no added line starts with `++`, none follows a missing-newline marker in its hunk, and no file with added lines has a path that holds a space or is quoted |
| `DiffScan.PlusPlusIsLost` | scripts/check-secrets.py:311-312 | An added line that starts with `++` is not found |
| `DiffScan.MarkerIsCounted` | scripts/check-secrets.py:318-319 | The marker of a missing newline moves the line number on |
| `DiffScan.SpacedPathIsMistaken` | scripts/check-secrets.py:298-303 | A path with a space is taken with the TAB after it |
| `DiffScan.TakenIff` | scripts/check-secrets.py:298-303 | The path read back from the `+++` line is the file's own exactly when that holds no space, which is printed with a TAB after it, and nothing it is quoted for |
| `DiffScan.FilesBound` | scripts/check-secrets.py:291-319 | Whatever the added lines are, the scanner invents none: it yields at most as many as there are, and fewer when one starts with `++` |
| `DiffScan.HunkHeaderIsRead` | scripts/check-secrets.py:307-313 | A printed hunk header is read back as its new-file start, with or without counts |
| `DiffScan.AddsAreOfTheNewFile` | scripts/check-secrets.py:291-319 | The number of an added line is its place in the new file, and what is yielded is what stands there; no added line of a hunk is left out |
| `DiffScan.FileScan` | scripts/check-secrets.py:291-319 | One file's part of a diff yields as many lines as the file adds wherever the scan stood before, and yields them rightly if and only if its markers come last and, if it adds anything, its path is plain |
| `DiffScan.IterAddedLines` | scripts/check-secrets.py:291-319 | The loop over the lines yields the specified lines in order |
| `DiffScan.ReadLine` | scripts/check-secrets.py:295-319 | One line: the branches of the loop, in their order |
| `LaunchEnv.CompressionIsFaithful` | crates/glasshouse/src/launch.rs:202-218 | For every history of calls and every inherited environment: the list holds each variable once and replaying it gives what replaying every call would |
| `LaunchEnv.CompressedHoldsTheLast` | crates/glasshouse/src/launch.rs:202-218 | The last operation on each variable survives compression |
| `LaunchEnv.LastCallDecides` | crates/glasshouse/src/launch.rs:202-218 | Each variable reaches the child as the last call on it left it, set to that value or absent, and as inherited where there was none |
| `LaunchEnv.StrippedIsAbsent` | crates/glasshouse/src/launch.rs:213-218 | A variable removed and never set again is absent from the child, whatever it inherits |
| `LaunchEnv.CredentialsStayHome` | crates/glasshouse/src/launch.rs:237-248 | After the strip, no provider credential variable reaches the child unless a later overlay sets it |
| `LaunchEnv.EntitlementIsTheSelectedOne` | crates/glasshouse/src/launch.rs:40-48 | The child carries exactly the selected entitlement, or none |
| `LaunchEnv.OrderedIsApplied` | crates/glasshouse/src/pty/mod.rs:165-190 | One more call on a terminal command means one more operation on the child, for the two-list form as well |
| `LaunchEnv.OrderedIsValid` | crates/glasshouse/src/pty/mod.rs:165-190 | No variable is ever both an override and a removal, and none is in a list twice |
| `LaunchEnv.HarnessLaunch.Env` | crates/glasshouse/src/launch.rs:202-208 | The history grows by this call, and the list stays its compression |
| `LaunchEnv.HarnessLaunch.EnvRemove` | crates/glasshouse/src/launch.rs:213-218 | The same for a removal |
| `LaunchEnv.HarnessLaunch.WithoutProviderCredentials` | crates/glasshouse/src/launch.rs:237-248 | The history grows by one removal for each credential variable, in order |
| `LaunchEnv.HarnessLaunch.WithActiveEntitlement` | crates/glasshouse/src/launch.rs:40-48 | The history grows by the entitlement mark, set or removed |
| `LaunchEnv.HarnessLaunch.BuildCommand` | crates/glasshouse/src/launch.rs:302-308 | The command built by replaying the list starts a child with the environment the whole history of calls asks for |
| `MapIndex.InsertionReport` | scripts/map-index.py:105-165 | Inserting lines anywhere, with distinct digests: exactly the boxes at or below the insertion are reported, all as moved by its length when that is within reach, all as gone when it is not |
| `MapIndex.InsertionIsNoticedIff` | scripts/map-index.py:105-165 | The check passes after an insertion if and only if no box stands below it |
| `MapIndex.TicksAreSilent` | scripts/map-index.py:55-74 | Ticking or unticking any set of boxes never shows as drift |
| `MapIndex.SearchIsExact` | scripts/map-index.py:115-127 | With distinct digests the search answers with the one place the box stands at now if that is within reach, and with nothing otherwise |
| `MapIndex.SearchIsNearest` | scripts/map-index.py:115-127 | Whatever the digests, the search answers with the nearest place within 400 lines, the one below of two as near, and fails only where there is none |
| `MapIndex.IndexRoundTrip` | scripts/map-index.py:81-102 | Reading the index file gives back the index that was written, past any comments |
| `MapIndex.TickKeepsIdentity` | scripts/map-index.py:55-66 | A box is the same box ticked and unticked |
| `MapIndex.SameBoxIff` | scripts/map-index.py:55-66 | Two boxes are the same exactly when the words after the glyph are, however spaced |
| `MapIndex.RewordingIsNoticedIff` | scripts/map-index.py:105-165 | Replacing the line of one box is silent when it keeps the box's words; otherwise that box is reported as gone and no other is reported |
| `MapIndex.ReportIs` | scripts/map-index.py:105-165 | A recorded box that is not at its number is reported once, as moved to where the search finds it or as gone, in the order of the numbers |
| `MapIndex.Boxes` | scripts/map-index.py:68-74 | Every line that is a box gets the digest of its normalised text, under its line number |
| `MapIndex.Find` | scripts/map-index.py:115-127 | The loop over growing distances, the later line first |
| `MapIndex.Check` | scripts/map-index.py:105-165 | The loop over the recorded boxes yields the report, and success exactly when it is empty |
| `Splice.UpdateIsAFixpointIff` | scripts/progress.py:243-300 | For every README with valid markers: after an update the block found is the block written if and only if its text holds no end marker |
| `Splice.CheckSucceedsAfterUpdateIff` | scripts/progress.py:167-300 | So a check after an update succeeds if and only if no rendered line holds the end marker |
| `Splice.FoundInOrder` | scripts/progress.py:243-255 | The block found begins with the start marker, ends with the end marker, and the two do not overlap |
| `Splice.MarkersDoNotOverlap` | scripts/progress.py:243-255 | No two occurrences of markers in any text share a character |
| `Splice.ContainsInALine` | scripts/progress.py:167-240 | A rendered block holds the end marker exactly when one of its lines does |
| `Splice.UpdateKeepsTheRest` | scripts/progress.py:243-300 | For every README with no marker before its block and no end marker inside: what is written is the same README with the new block in the old one's place |
| `Splice.FoundIsLaidOut` | scripts/progress.py:243-255 | The markers are found in no other README |
| `Splice.Update` | scripts/progress.py:258-300 | For every such README, text before and after the block is written back as it was; nothing is written when checking, when the block is current, or without a block; a check fails exactly when the block is out of date |
| `Progress.ConservedIff` | scripts/progress.py:56-132 | What the phases still owe plus what is parked is the number of unticked boxes after the start if and only if as many boxes are lost between the two readings as are parked above the start; with the experimental heading below the start, if and only if none is lost |
| `Progress.BoxesAreAccountedFor` | scripts/progress.py:56-132 | At every line after the start, wherever the experimental heading stands: owed, parked and lost boxes add up to the unticked ones after the start and those parked above it |
| `Progress.LostIff` | scripts/progress.py:56-132 | A box is lost exactly under a `Maybe` heading above the experimental section that no phase has followed, or under that section's heading repeated below the start after a phase |
| `Progress.BoxCanBeLost` | scripts/progress.py:56-132 | A map of three lines whose one box is in no phase and not parked |
| `Progress.LostOnlyThere` | scripts/progress.py:56-132 | Without a `Maybe` heading above the experimental section, and without a second such section, both readings agree at every line on what is experimental |
| `Progress.OrdinaryMapsAreConserved` | scripts/progress.py:56-132 | So every such map is conserved |
| `Progress.KindsAreDisjoint` | scripts/progress.py:56-132 | No line is both a box and a heading, nor two kinds of heading |
| `Progress.BarIsHonest` | scripts/progress.py:162-164 | The bar has exactly its width in cells, filled from the left; for a total above 0 it is full if and only if everything is done, and for a total of 0 it is empty |
| `Progress.FirstHeadingIsFirst` | scripts/progress.py:62-66 | The line either scan starts from is the first that spells its heading, and there is none when it is past the end |
| `Progress.ParsePhases` | scripts/progress.py:80-132 | The loop yields the phases of the specified reading, or an error for a missing start, a box before any phase, or no phase |
| `Progress.PhasesAre` | scripts/progress.py:80-132 | One phase for each phase heading after the start, in order, under its text; it is given the boxes down to the next heading that are not experimental, the ticked ones of them as done, and is a gate exactly when one of those lines says so |
| `Progress.PhaseIff` | scripts/progress.py:46-46 | A line is a phase heading exactly when it is spelled like one, with any whitespace between its parts |
| `Progress.GateIff` | scripts/progress.py:116-119 | A line marks its phase as a gate exactly when it holds the marker, anywhere |
| `Progress.RefusedIff` | scripts/progress.py:120-128 | The map is refused exactly when a box that is not experimental stands before the first phase heading |
| `Progress.ParseOne` | scripts/progress.py:99-126 | One line of that loop, the error included |
| `Progress.CountParked` | scripts/progress.py:56-77 | The loop counts the unticked boxes of the parked stretches |
| `TestBlocks.TheOnlyReading` | scripts/discover.py:30-71 | The scan's blocks are the one way to cover a file with disjoint blocks in order, each from an attribute to the first line at or after its next opening brace that leaves nothing open, so that every attribute some brace follows is covered |
| `TestBlocks.MatchIsTheBrace` | scripts/discover.py:30-37 | The matching brace is a closing brace right after which nothing is open that was opened from the attribute's next opening brace on, and there is no such place before it on any line |
| `TestBlocks.BlockEndsAtItsMatchIff` | scripts/discover.py:30-71 | A block ends on the line of its matching brace if and only if every line before it ends with more braces open than the opening line closed first, and the text after the match opens no more than those; when the opening line closes nothing first, exactly when nothing stays open after the match on its line or the brace is never closed |
| `TestBlocks.BlockCanOutrunItsMatch` | scripts/discover.py:55-65 | A file the scan makes one block of, whose closing line opens something else: the block runs past the matching brace |
| `TestBlocks.BlockCanStopShort` | scripts/discover.py:55-65 | A file whose one block ends before the matching brace, because the opening line closes a brace first |
| `TestBlocks.TestBlockLineNumbers` | scripts/discover.py:30-71 | The outer loop skips exactly the lines of those blocks |
| `TestBlocks.OpenLine` | scripts/discover.py:45-51 | The first line at or after the attribute that holds an opening brace, if there is one |
| `TestBlocks.CloseLine` | scripts/discover.py:55-65 | The first line from there on that leaves nothing open, or the end of the file |
| `TestBlocks.CountIs` | scripts/discover.py:58-60 | Every brace of a line counts, wherever it stands |
| `TestBlocks.AttributeIs` | scripts/discover.py:43-44 | A line is an attribute, at any indentation, exactly when it is `#[cfg(test)]` or begins with `#[test]` |
| `Limits.FirstPublisherDecides` | scripts/bake-model-index.py:184-204 | The first vendor in order that publishes a figure decides: the answer carries exactly the figures its rows state, or is a conflict when they state two of a kind |
| `Limits.OthersMustBeUnanimous` | scripts/bake-model-index.py:205-208 | When no vendor publishes, the answer carries exactly the figures of all rows if they agree, and is a conflict if they disagree or state none |
| `Limits.OrderDoesNotMatter` | scripts/bake-model-index.py:184-208 | The answer depends on which rows there are, not on their order or repetition |
| `Limits.LowerTiersCannotOverride` | scripts/bake-model-index.py:184-204 | Once a tier publishes or contradicts itself, no change to the rows of lower tiers changes the answer |
| `Limits.AgreedMeans` | scripts/bake-model-index.py:170-181 | Rows are silent exactly when none states a figure, and disagree exactly when two state different ones |
| `Limits.TierIs` | scripts/bake-model-index.py:192-197 | The rows of the first tier are those under keys with no provider, and of each other tier those whose key begins with its vendor, in any case |
| `Limits.WholeIff` | scripts/bake-model-index.py:156-167 | A value counts as a token count exactly when it is a positive number without a fraction, however spelled |
| `Limits.EveryFigureIsPublished` | scripts/bake-model-index.py:136-230 | End to end: every figure a model is given stands in an item for a conversational model listed under the model's name, or under that name without its effort word only when the name itself is not listed |
| `Limits.PublishedAre` | scripts/bake-model-index.py:136-153 | Under a name stand the rows of exactly the conversational items that go by it, by their whole key or by what follows its last slash, each once, in catalogue order |
| `Limits.LimitedIs` | scripts/bake-model-index.py:211-230 | The rows under the model's own name decide when there are any, else those under the name without the effort word it ends in, and the answer says which; a model with neither is unmatched |
| `Limits.EffortIsUnambiguous` | scripts/bake-model-index.py:87-94 | No name ends in two effort words: the word stripped is the one it ends in |
| `Limits.LimitsFor` | scripts/bake-model-index.py:184-208 | The loop over the vendors, with its early returns, gives the specified answer |
| `Limits.LimitsIndex` | scripts/bake-model-index.py:136-153 | The index holds under each name the usable items published under it, each once, in catalogue order |
| `Limits.LimitsOf` | scripts/bake-model-index.py:211-230 | The exact name first, then the name without its effort word, and how the answer was come by |
| `Models.OverlayIsAssociative` | crates/inference-gateway/src/models.rs:132-147 | Three catalogues give the same result whichever two are laid together first |
| `Models.OverlayTwiceIsOnce` | crates/inference-gateway/src/models.rs:132-147 | Laying a catalogue over itself, or over what already carries it, changes nothing |
| `Models.FreshFigureWins` | crates/inference-gateway/src/models.rs:84-96 | For each of the nine figures by name: the fresher copy's where it carries one, else the older |
| `Models.OverlayIs` | crates/inference-gateway/src/models.rs:132-147 | A model that one copy knows is kept as it is there, one that both know figure by figure, and the heading's fields are the overlay's where it has them |
| `Models.BakedStands` | crates/inference-gateway/src/models.rs:197-212 | Without an overlay that holds models the baked copy is what is known, and no overlay loses a baked model |
| `Models.OverlaidWith` | crates/inference-gateway/src/models.rs:132-147 | The loop over the overlay's models yields the merged catalogue, models of either copy kept |
| `Models.DataDir.Import` | crates/inference-gateway/src/models.rs:219-240 | Succeeds exactly for a catalogue with models, writes each under its normalised name with the last in key order where names collide, and leaves the file alone otherwise |
| `Models.RenamedModels` | crates/inference-gateway/src/models.rs:225-232 | The walk in key order keeps the last entry of each normalised name |
| `Models.ImportedIsFound` | crates/inference-gateway/src/models.rs:206-240 | After an import every published model is found under its normalised name, each figure that of its last colliding entry, or the baked one where that entry has none |
| `Models.ImportIsStable` | crates/inference-gateway/src/models.rs:219-240 | Importing what was imported writes the same models and no others |
| `Models.NormaliseIsIdempotent` | crates/inference-gateway/src/models.rs:156-158 | A normalised name is its own key |
| `Models.NormaliseIs` | crates/inference-gateway/src/models.rs:156-158 | Whitespace around a name is dropped, letters are lowered, dots and underscores become dashes, and nothing else is rewritten |
| `Models.SpelledName` | crates/inference-gateway/src/models.rs:156-158 | A concrete name in mixed case with a dot, an underscore and whitespace around it |
| `Models.BeforeIff` | crates/inference-gateway/src/models.rs:225-232 | The key order is by the first place where two keys differ, the shorter first where they do not |
| `Models.AnyOrderIff` | crates/inference-gateway/src/models.rs:265-326 | Of the candidates for a name, the one kept is the same in every scan order if and only if the best ranked are all one and the same |
| `Models.KeptIsBest` | crates/inference-gateway/src/models.rs:265-326 | What is kept has the newest time, or the narrowest window, of all candidates for the name; nothing is kept only when there is none |
| `Models.OutputIsLeastIff` | crates/inference-gateway/src/models.rs:304-326 | In every scan order the reading kept states the least output maximum if and only if every reading with the narrowest window states it |
| `Models.Observed` | crates/inference-gateway/src/models.rs:265-285 | The loop keeps for each name the newest refusal, the later scanned of equals |
| `Models.ObservedIsNewest` | crates/inference-gateway/src/models.rs:265-285 | For each name: the window of its newest refusal, the last scanned of those as new, with the provider that refused it |
| `Models.Served` | crates/inference-gateway/src/models.rs:304-326 | The nested loops keep for each name the narrowest window, the first scanned of equals |
| `Models.ServedIsNarrowest` | crates/inference-gateway/src/models.rs:304-326 | For each name: the narrowest window of any account, the first scanned of those as narrow, with that reading's own output maximum, account and time |
| `Pool.EveryAccountOnce` | crates/inference-gateway/src/pool.rs:202-299 | Every account of the catalogue is either a backend or a note, exactly once, and both lists keep the account-name order |
| `Pool.ServedIff` | crates/inference-gateway/src/pool.rs:228-289 | A provider-backed account gets a backend if and only if some entry of the providers bears the name it states, the first such entry declares a base URL and none that cannot be called, and the account's own reference, or the first of that entry's variables, to resolve is fit for a header; the backend is that entry's, with its name, its routes and that key |
| `Pool.UnknownProviderIff` | crates/inference-gateway/src/pool.rs:235-241 | The account is noted as naming an unknown provider exactly when no entry bears the name it states |
| `Pool.OutcomeComes` | crates/inference-gateway/src/pool.rs:228-289 | What every account that names a provider comes to, told by the indices of the configuration: which entry and which variable decide, and which note each failure gets |
| `Pool.OthersCome` | crates/inference-gateway/src/pool.rs:205-234 | What every other account comes to: a broker's backend with its routes, key, name, models and no cost, or the note of what failed |
| `Pool.PoolHolds` | crates/inference-gateway/src/pool.rs:202-299 | The backends and notes of the pool are exactly what its accounts come to |
| `Pool.GatewayRoutesAre` | crates/inference-gateway/src/pool.rs:434-474 | A provider's routes: one for each protocol whose first entry has a base URL, to that URL without its trailing slashes, with the tool calls that entry declares, in the ingress's order |
| `Pool.StatedCredentialIsTheOnlyOne` | crates/inference-gateway/src/pool.rs:250-269 | An account that states a credential is served with that one or not at all |
| `Pool.NoBackendForwardsNowhere` | crates/inference-gateway/src/pool.rs:464-474 | Every route of every backend has a base URL to forward to |
| `Pool.RouteIsEmptyIff` | crates/inference-gateway/src/pool.rs:434-474 | A provider gets a route to an empty base URL exactly when it declares one of slashes alone; constructing the backend then refuses it |
| `Pool.SlashBecomesNothing` | crates/inference-gateway/src/pool.rs:434-474 | A provider that declares a single slash gets a route to an empty base URL |
| `Pool.RouteIffDeclared` | crates/inference-gateway/src/pool.rs:434-448 | A provider has a route for exactly the protocols it declares a base URL for |
| `Pool.BrokersTranslateOnly` | crates/inference-gateway/src/pool.rs:366-383 | A broker-backed account claims the four translated protocols and never the relayed one |
| `Pool.OneProtocolClaims` | crates/inference-gateway/src/pool.rs:86-96 | No request target belongs to two protocols |
| `Pool.ClaimsIff` | crates/inference-gateway/src/gateway/upstream.rs:147-180 | A target belongs to a protocol exactly when it is, or goes on below or with a query or fragment, one of the protocol's prefixes, with or without the version segment |
| `Pool.DecisionsReachTheirAccount` | crates/inference-gateway/src/pool.rs:65-78 | End to end: with one account whose provider declares the decision protocol, every decision request is carried by that account's backend, whatever brokers, model, serving backend, exclusions and rests there are |
| `Pool.OnlyClaimantServes` | crates/inference-gateway/src/gateway/upstream.rs:734-747 | A target only one backend claims is carried by that backend |
| `Pool.WhoCarries` | crates/inference-gateway/src/gateway/upstream.rs:713-747 | A request is carried by the only backend with a route for its target if there is exactly one, else by the one chosen for its model, else by the serving one |
| `Pool.ModelStaysInItsPool` | crates/inference-gateway/src/gateway/upstream.rs:761-773 | A model is carried by the first account of its pool that does not rest, by the first of the pool when all rest, and by none when the pool is empty |
| `Pool.PoolFromCatalogue` | crates/inference-gateway/src/pool.rs:184-299 | The loop and its early exits build exactly the backends and notes the accounts come to; it is refused exactly when no account can serve |
| `Pool.GatewayUpstream` | crates/inference-gateway/src/pool.rs:311-358 | Without a catalogue: one backend per resolving variable of each compatible provider, in order, or the first refusal; the two empty cases are told apart |
| `Pool.AttemptIff` | crates/inference-gateway/src/pool.rs:329-351 | There is an attempt for a provider's variable if and only if the provider has a route and the variable resolves |
| `Pool.AttemptIs` | crates/inference-gateway/src/pool.rs:331-350 | An attempt makes a backend under its provider's name, with its routes, the variable's value for a key and the cost of that provider |
| `Pool.AttemptsInOrder` | crates/inference-gateway/src/pool.rs:325-351 | Attempts follow the order of the providers |
| `Pool.VariablesInOrder` | crates/inference-gateway/src/pool.rs:331-335 | Within a provider they follow the order of its variables, and those that do not resolve are passed over |

## Left out

- Shutdown: the real terminal, `process::exit`, thread scheduling, and an error of `disable_raw_mode`, which the code ignores. Of what a restore writes, only its number and the end of the alternate screen are kept.
- Shutdown, ForcedExit: identifiers and signal counts are unbounded, so their wrap-around is not modelled; nor is a poisoned lock, under which the code registers, removes and runs nothing.
- TuiCheck: decoding of UTF-8 across reads; text is code points. `text`, `ink`, `overlay_title`, `pending_note` and the process control around the screen.
- TuiCheck: a parameter is ASCII digits; other characters Python's `int` would accept cannot occur in one.
- LaunchEnv: argument translation, the UNC refusal, spawning, and environments whose variable names ignore case.
- Partition: `fnmatch` is a parameter; root and general globs therefore have no path semantics here. Reading the pattern, the new-file mark and the exception out of a claim's text, and the other checks of a round.
- FrameBank: colours, tier texts beyond the three lines written, and the crop arithmetic of the player. A grid size with a sign, an underscore or digits other than ASCII, which Python's `int` accepts, is an error here.
- DiffScan: content that holds a line separator before its end, and settings of `git` that change its prefixes or its quoting. The secret patterns, entropy and sequential runs.
- MapIndex: the digest is a parameter, and its distinctness a hypothesis. Writing the file.
- Splice: the rendered block is a parameter, given as its lines. Reading and writing files, and the diff printed by a failed check.
- Progress: component names and gates attached to phases, which change no count.
- TestBlocks: the loops to the opening and to the closing line are methods of their own.
- Limits: `str.lower` and the name normalisation are parameters. Fetching and parsing the catalogues, NaN and infinite numbers, and merging the limits into the baked file.
- Models: figures are exact numbers, not floating point. JSON, the file system and its failures: `Import` is given what the bytes spell, and what was written is what is read.
- Models.Served: the directory scan is the order of its input.
- Pool: which secrets resolve, which base URLs are absolute, which brokers start and which keys a header can carry are answered by a parameter. Messages, background refreshes, and the choice between several claimants of one target.
- Pool: a backend's sorted models without repetition are a set; `switch_to` and the failover candidates.
