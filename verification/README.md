# CC-Panes: ownership, retirement and launch configuration

CC-Panes edits files that it shares with the user and with other processes. Its adapters keep three promises: touch
only what is theirs, converge to the same result, and survive crashes and races. This project models the code that
keeps them and proves the promises over every input, every run or every interleaving.

- **Receipt-driven injection.** `OwnedOverlay` has the two mutating loops of a sync and the one-line overlay they
  refine. `McpFileInjection` is the sync on a pair of files, target and receipt, with a write failing before or
  after the target. `McpInjectionRuns` says what a sync leaves and reports member by member, and draws the consequences:
  idempotence, independence of history, clearing, interruption, and runs with user edits and lost receipts in between.
- **Retirement and collection.** `ConfigLifecycle` has retire, prepare, collect and publish on a data directory
  in which every single removal, open or write may fail; `ConfigRuns` takes them step by step, with any number of
  sessions, each scan's test and removals apart, and an arbitrary clock, and says exactly which deletions happen.
- **Hook table.** `HookTable`, `HookSync`, `HookLaws` and `HookSettings` treat sync and cleanup of the Claude hooks
  as an edit / un-edit pair on a document that also holds user entries; `HookUsers` looks at the user's hooks singly.
- **Trust entries.** `CodexTrust` does the same for the trust levels in the Codex configuration.
- **User-level server maps.** `ManagedUrl` and `ManagedServers` cover the recogniser that tells the program's own URL
  from a user's, and what syncing and removing do to the maps of Cursor and Grok; `ManagedUrlExactly` says which URLs
  the recogniser takes.
- **Protocols.** `ConfigWorker`, `ConfigWorkerVerdicts` and `ConfigWorkerFiles` (a caller, a worker, a channel, a cancel
  flag), `RefreshGate` (a cache checked twice around a try-lock), `AtomicWrite` (temporary file, sync, rename or hard
  link) and `RpcPending` (ids, timers, settlements) are state machines; a step is one atomic action of one thread, and the
  results hold for every interleaving. `AtomicWriteCalls` shows that the write functions themselves, loop by loop and
  for every fate of their system calls, are runs of that machine, and `StdioBridge` that the bridge's methods are
  steps of the pending table; `StdioLines` says which messages of a stream these are.
- **Scanners.** `LogMask`, `LogMaskValues`, `LogMaskLaws`, `LogMaskTwice` and `LogMaskAll` (masking secrets in log text),
  `HookCommand` (POSIX quoting), `LikeSearch` (LIKE patterns and paging), `BoundedHead` and `Utf8Text` (a reader bounded
  in lines and bytes, and what it takes for text), `VersionOrder` and `VersionText` (version directory names).

`JsonValues`, `Characters` and `SetIteration` are shared helpers.

Where the code falls short of what its comments suggest, the model keeps the code's behaviour and the project states
exactly when the promise holds:

- Masking is not idempotent for `auth=` and `authorization=` when a bearer value is cut at a comma
  (`LogMaskTwice.IdempotentExactly`, input in `LogMaskTwice.AuthCanBeCut`).
- A search text with a backslash is not searched for as a substring (`LikeSearch.SubstringSearchExactly`).
- `compare_version_dir_names` is cyclic on mixed segments (`VersionOrder.MixedSegmentsCycle`); which sets of segments
  are safe is settled in `VersionOrder.NamesTransitiveExactly`.
- Hook sync is idempotent and undone by cleanup exactly when every command written names a hook binary
  (`HookLaws.SecondSyncExactly`, `HookLaws.CleanupAfterSync`); a path that contains such a name is enough, and
  `HookLaws.UnnamedPathPilesUp` has one that does not.
- Sync and cleanup remove hook entries whole, so a hook of the user's goes with one of CC-Panes in the same entry
  (`HookUsers.RoundTripKeepsHooksExactly`, entry in `HookUsers.MixedEntryLosesHook`).
- A repeated Cursor sync reports a change exactly when a shared server called `ccpanes` with a recognised URL contests
  the program's entry (`ManagedServers.RepeatReportsChangeExactly`), which the program's own shared servers never do
  (`ManagedServers.ProgramNeverContests`). A shared server's new URL is written only when the old one looked like the
  program's own (`ManagedServers.SharedUpdateExactly`); the program's never do, so a changed port is never written
  (`ManagedServers.SharedPortNeverFollows`).
- A sync cut short between its two writes cannot be cleared afterwards exactly when it was introducing a new name
  (`McpInjectionRuns.ClearAfterInterruption`, case in `McpInjectionRuns.InterruptionLeavesEntry`).
- Cleanup of Codex trust does not restore every document; `CodexTrust.CleanupUndoesRunExactly` says which, and
  `CodexTrust.EmptyProjectIsLost` and `CodexTrust.InlineTrustStays` have two that it does not.
- A managed provider launches on the native configuration exactly when there was nothing to write
  (`ConfigWorker.ManagedLaunchExactly`, run in `ConfigWorkerFiles.ManagedCanLaunchNative`).
- The OpenCode worker leaves its files behind after a timeout exactly when it did not look at the cancel flag after the
  caller had set it, or the removal of the directory fails on them (`ConfigWorkerFiles.TimeoutLeavesExactly`, run in
  `ConfigWorkerFiles.TimeoutCanLeaveFiles`).
- A URL of the user's can be taken for the program's own; `ManagedUrlExactly.ManagedUrlExactly` says which,
  `ManagedUrlExactly.UserUrlIsTaken` has one.
- A request of an MCP server's own settles a request of the client's exactly when the numbers collide
  (`RpcPending.OnlyResponsesSettleExactly`, run in `RpcPending.PingSettlesRequest`), and the exit of a server leaves
  requests pending exactly when the client is closed with some pending (`RpcPending.ExitSettlesExactly`).
- A config that was published again, and not retired since, is deleted exactly when a scan had found it expired before
  (`ConfigRuns.UnretiredDeletedExactly`, run in `ConfigRuns.StaleScanDeletesPublished`).
- A published config is recognised by the collector exactly when its session id has the shape of a UUID
  (`ConfigLifecycle.PublishedNamesRecognised`, `ConfigLifecycle.OtherIdsAreMissed`).

## Model

| member | source | states |
|---|---|---|
| OwnedOverlay.UpsertOwned | cc-cli-adapters/src/mcp_file_injection.rs:208-222 | The first loop: every owned name follows the desired set, and the two counters are the numbers of entries that differed and of entries dropped |
| OwnedOverlay.AddDesired | cc-cli-adapters/src/mcp_file_injection.rs:224-238 | The second loop: names not owned are added unless an entry is in the way; what was in the way is exactly what is reported |
| OwnedOverlay.LoopsGiveOverlay | cc-cli-adapters/src/mcp_file_injection.rs:207-238 | Both loops together give the overlay: the entries not owned, plus every desired entry whose name is free |
| OwnedOverlay.ApplyDesired | cc-cli-adapters/src/mcp_file_injection.rs:200-246 | The server map becomes the overlay; injected and removed are the numbers of names it changes, and the collisions are exactly the desired names for which there is an entry that is not owned |
| OwnedOverlay.OwnedNamesAfterSync | cc-cli-adapters/src/mcp_file_injection.rs:181-198 | The new receipt holds a desired name exactly when it was owned or did not collide |
| McpFileInjection.ReceiptBody | cc-cli-adapters/src/mcp_file_injection.rs:277-293 | Round trip of the receipt: reading the body written gives exactly the names written |
| McpFileInjection.Decide | cc-cli-adapters/src/mcp_file_injection.rs:74-176 | Everything a sync decides before writing: an unreadable target is an error, one that does not parse or is no object is left alone with an empty outcome, a server map that is no object panics; otherwise leave alone, forget the receipt, or rewrite to the overlay |
| McpFileInjection.Reconcile | cc-cli-adapters/src/mcp_file_injection.rs:129-149 | On a document with a server map: rewrite exactly when the overlay or the receipt differ from what is there |
| McpFileInjection.ProjectFiles.WriteReceipt | cc-cli-adapters/src/mcp_file_injection.rs:277-293 | The receipt file reads back as the names given |
| McpFileInjection.ProjectFiles.Sync | cc-cli-adapters/src/mcp_file_injection.rs:74-176 | Both files and the report after a sync, with no write failing, the target write failing, or the receipt write failing. A target that cannot be read, does not parse, is no object, or has a server map that is none stays as it is, and so does the receipt, with the report due in each case; a sync with nothing to change writes neither file |
| McpInjectionRuns.SyncedExactly | cc-cli-adapters/src/mcp_file_injection.rs:88-176 | What a sync leaves, member by member: the entries not owned and every key but `mcpServers` as before, what was desired under every other desired name, no other name, and exactly these names in the receipt; no file only where there was none and nothing is desired |
| McpInjectionRuns.ReportedExactly | cc-cli-adapters/src/mcp_file_injection.rs:126-246 | What a sync reports: that it wrote exactly when something changed, how many desired names were missing or different, how many owned ones went, and which met an entry of the user |
| McpInjectionRuns.FaultsExactly | cc-cli-adapters/src/mcp_file_injection.rs:128-165 | A failing receipt write leaves the new target beside the old receipt, a failing target write both as they were; either is reported exactly when that write was due |
| McpInjectionRuns.ReceiptExactly | cc-cli-adapters/src/mcp_file_injection.rs:248-275 | A receipt owns the strings in the list under `servers`; a missing, corrupt or otherwise shaped one owns nothing |
| McpInjectionRuns.SyncGivesOverlay | cc-cli-adapters/src/mcp_file_injection.rs:126-176 | After a sync the map is the overlay of the user view, the receipt is what was injected, every other top-level key is unchanged, and no file is created for an empty wish |
| McpInjectionRuns.SyncKeepsUser | cc-cli-adapters/src/mcp_file_injection.rs:126-176 | No user entry and no other top-level key is altered by a sync, even one cut short at either write |
| McpInjectionRuns.SecondSyncIsIdle | cc-cli-adapters/src/mcp_file_injection.rs:147-152 | A repeated sync plans no write and reports nothing injected and nothing removed |
| McpInjectionRuns.OnlyLastWishMatters | cc-cli-adapters/src/mcp_file_injection.rs:126-246 | After any sequence of syncs, map and receipt are those of one sync with the last desired set; the user view is the original one |
| McpInjectionRuns.HistoryIndependent | cc-cli-adapters/src/mcp_file_injection.rs:126-246 | Two sequences of syncs that end in the same wish leave the same document and receipt |
| McpInjectionRuns.ClearRestoresUser | cc-cli-adapters/src/mcp_file_injection.rs:126-246 | After any sequence of syncs, a sync with nothing desired leaves exactly the user entries and an empty receipt |
| McpInjectionRuns.RerunAfterInterruption | cc-cli-adapters/src/mcp_file_injection.rs:147-165 | Cut short between the two writes and run again: the same map, and a receipt of the names owned before and still desired |
| McpInjectionRuns.ClearAfterInterruption | cc-cli-adapters/src/mcp_file_injection.rs:147-165 | A clearing sync undoes an interrupted one if and only if that one was introducing no new name |
| McpInjectionRuns.InterruptionLeavesEntry | cc-cli-adapters/src/mcp_file_injection.rs:147-165 | A first injection into an empty object is such a case: cut short there, its entry outlives the clearing sync |
| McpInjectionRuns.OwnershipHasCause | cc-cli-adapters/src/mcp_file_injection.rs:181-198 | Over every run of syncs, faults, user edits and lost receipts, a name is owned only if it was at the start or some sync asked for it |
| McpInjectionRuns.UserEntrySurvives | cc-cli-adapters/src/mcp_file_injection.rs:200-275 | Over every such run, an entry that is not owned stays as the user left it and is never claimed |
| ConfigLifecycle.PublishedNamesRecognised | cc-cli-adapters/src/mcp_config_lifecycle.rs:11-28 | The two names a session config is published under are recognised exactly when the session id has the shape of a UUID |
| ConfigLifecycle.RecognisedExactly | cc-cli-adapters/src/mcp_config_lifecycle.rs:11-28 | And no other name is: recognised are exactly the two forms with 36 hexadecimal digits and dashes in the places of a UUID |
| ConfigLifecycle.OtherIdsAreMissed | cc-cli-adapters/src/mcp_config_lifecycle.rs:11-54 | The config of a session with any other id, under either name, is never retired and never collected |
| ConfigLifecycle.MarkersAreNotConfigs | cc-cli-adapters/src/mcp_config_lifecycle.rs:11-34 | A marker is never taken for a config, and two configs never share one |
| ConfigLifecycle.VisitOne | cc-cli-adapters/src/mcp_config_lifecycle.rs:74-100 | One more name visited by the scan removes that config and then its marker, or nothing, and disturbs no name not yet visited |
| ConfigLifecycle.DataDir.Retire | cc-cli-adapters/src/mcp_config_lifecycle.rs:36-54 | A recognised config that is there and has no marker gets one with the fixed content and the present time; an existing marker is not rewritten, and no other name changes |
| ConfigLifecycle.DataDir.Prepare | cc-cli-adapters/src/mcp_config_lifecycle.rs:57-62 | Failure exactly when the marker is there and cannot be removed; otherwise there is none afterwards, and no other name changes |
| ConfigLifecycle.DataDir.Collect | cc-cli-adapters/src/mcp_config_lifecycle.rs:70-101 | The directory after a scan that runs alone, whatever order it lists the names in and whichever removals fail |
| ConfigLifecycle.CollectedExactly | cc-cli-adapters/src/mcp_config_lifecycle.rs:70-101 | Name by name, whichever removals fail: the scan takes a recognised plain file of another session exactly when its marker is a plain file with the fixed content, older than seven days, and the marker of each config taken; nothing else |
| ConfigLifecycle.DataDir.Publish | cc-cli-adapters/src/claude.rs:294-414 | Collect, prepare and write in that order. On success the config holds the new data, written now, or is the link it was, and has no marker; it succeeds exactly when marker and config can be removed and written; every other name is as the scan left it |
| ConfigRuns.StepOnMarker | cc-cli-adapters/src/mcp_config_lifecycle.rs:36-62 | Only a retire of its own config creates a marker, no step of any session rewrites one, and a successful prepare leaves none |
| ConfigRuns.StepExactly | cc-cli-adapters/src/mcp_config_lifecycle.rs:36-101 | What each step of a run does to each name: a preparation takes the marker away, a write over nothing or a plain file leaves exactly the data there, a retire leaves the fixed content and its time, a removal takes what the session decided on, and every other name stands for what it did |
| ConfigRuns.MarkerBirth | cc-cli-adapters/src/mcp_config_lifecycle.rs:36-54 | In every run, the marker a config carries was made by a retire of it that found none, and holds the time of that retire |
| ConfigRuns.MarkerPersists | cc-cli-adapters/src/mcp_config_lifecycle.rs:36-101 | From then on the marker stays and is never touched, so a later retire does not extend the retention |
| ConfigRuns.NothingCleared | cc-cli-adapters/src/mcp_config_lifecycle.rs:57-62 | Since then every attempt to clear the marker has failed |
| ConfigRuns.VisitInSteps | cc-cli-adapters/src/mcp_config_lifecycle.rs:74-100 | Undisturbed, the test and the two removals of a scan, taken as three steps, do to one name what the visit of the scan does |
| ConfigRuns.StepOnDecision | cc-cli-adapters/src/mcp_config_lifecycle.rs:81-97 | A session decides to remove a config only at a test of its own that the config passes |
| ConfigRuns.DecisionHasTest | cc-cli-adapters/src/mcp_config_lifecycle.rs:81-97 | In every run, a decision that is held goes back to such a test, at the step it records |
| ConfigRuns.DeletedExactly | cc-cli-adapters/src/mcp_config_lifecycle.rs:70-101 | A config disappears in a step if and only if a session that decided to remove it does so |
| ConfigRuns.DeletionIsJustified | cc-cli-adapters/src/mcp_config_lifecycle.rs:36-101 | In every run of any number of sessions, under any clock and any failures, a config is deleted only by a session that found it expired, on behalf of another one; at that time more than seven days had passed since the retire that began its retirement, and nothing had cleared it |
| ConfigRuns.UnretiredHasNoMarker | cc-cli-adapters/src/mcp_config_lifecycle.rs:36-101 | A config that was prepared and not retired since carries no marker |
| ConfigRuns.UnretiredDeletedExactly | cc-cli-adapters/src/mcp_config_lifecycle.rs:57-101 | Such a config is nevertheless deleted by a step if and only if that step is the removal of a session that found it expired before the preparation |
| ConfigRuns.UnretiredSurvives | cc-cli-adapters/src/mcp_config_lifecycle.rs:36-101 | Hence no later step deletes it when no session was about to remove it at its preparation |
| ConfigRuns.StaleScanDeletesPublished | cc-cli-adapters/src/mcp_config_lifecycle.rs:81-97 | A run in which a scan is overtaken by a new publication, and deletes that |
| ConfigRuns.ExpiredIsCollected | cc-cli-adapters/src/mcp_config_lifecycle.rs:70-101 | Without failures a scan removes a config, and its marker, exactly when the config has expired |
| LogMask.MaskAssignmentValues | cc-cli-adapters/src/lib.rs:1843-1892 | The cursor loop yields the masked text; how far each value in it reaches is said in `LogMaskValues` |
| LogMask.Value | cc-cli-adapters/src/lib.rs:1850-1888 | One value: a bearer value of `authorization=` or `auth=` up to `&`, `,`, a quote or a line break reads as stars; a quoted value as its quote and stars up to the same quote; a bare one as stars up to `&`, a quote or white space, or nothing when empty |
| LogMask.MaskTurn | cc-cli-adapters/src/lib.rs:1847-1889 | What one turn of the loop appends, and where the cursor goes, continues the masked text |
| LogMaskValues.BearerHidden | cc-cli-adapters/src/lib.rs:1851-1867 | Where `authorization=` or `auth=` is followed by `bearer `, all in any case, the pass shows stars and then the masked text from the first `&`, `,`, quote or line break on |
| LogMaskValues.QuotedHidden | cc-cli-adapters/src/lib.rs:1869-1878 | Where a quote follows a key, the pass shows the quote, stars unless it closes at once, and then the masked text from the same quote on |
| LogMaskValues.BareHidden | cc-cli-adapters/src/lib.rs:1879-1887 | Any other value: stars unless it is empty, and then the masked text from the first `&`, quote or white space on |
| LogMaskValues.RestShown | cc-cli-adapters/src/lib.rs:1847-1891 | Where the key does not occur any more, the text is shown as it is |
| LogMaskValues.HeaderHidden | cc-cli-adapters/src/lib.rs:1851-1867 | `Authorization=Bearer` with any token behind it becomes `Authorization=***` |
| LogMaskLaws.EveryOccurrenceMasked | cc-cli-adapters/src/lib.rs:1843-1892 | In the output, every occurrence of the key in any case is followed by nothing secret: the end, a delimiter, stars, or a quotation that is empty or stars |
| LogMaskLaws.OnlyValuesChange | cc-cli-adapters/src/lib.rs:1843-1892 | Input and output are the same stretches in the same order; only values are replaced, by three stars or by nothing when empty |
| LogMaskLaws.WhereItOccurs | cc-cli-adapters/src/lib.rs:1847-1889 | Stars and quotes never form a new occurrence of the key |
| LogMaskTwice.MaskTwice | cc-cli-adapters/src/lib.rs:1843-1892 | On text that ends with a masked text, a second pass from there changes nothing exactly when no bearer value was cut at a comma |
| LogMaskTwice.IdempotentExactly | cc-cli-adapters/src/lib.rs:1843-1892 | Masking is idempotent on a text if and only if it cuts no bearer value at a comma |
| LogMaskTwice.PlainKeysNeverCut | cc-cli-adapters/src/lib.rs:1851-1868 | So it always is for the keys without the bearer branch |
| LogMaskTwice.AuthCanBeCut | cc-cli-adapters/src/lib.rs:1851-1868 | `auth=bearer a,b` is a text on which it is not: the second pass changes the output |
| LogMaskAll.MaskBearerValues | cc-cli-adapters/src/lib.rs:1894-1917 | The cursor loop of the bearer pass yields the text that the laws below speak about |
| LogMaskAll.LaterPassKeeps | cc-cli-adapters/src/lib.rs:1828-1841 | What one pass has masked for its key, a pass for any other key leaves masked |
| LogMaskAll.BearerPassKeeps | cc-cli-adapters/src/lib.rs:1840 | And so does the bearer pass |
| LogMaskAll.EveryBearerHidden | cc-cli-adapters/src/lib.rs:1894-1917 | In its output every `bearer `, in any case, is followed by nothing secret |
| LogMaskValues.BearerWordHidden | cc-cli-adapters/src/lib.rs:1894-1917 | After `bearer `, in any case, the pass shows stars unless the word is empty, and then the masked text from the first `&`, `,`, quote or white space on |
| LogMaskAll.MaskTokenValues | cc-cli-adapters/src/lib.rs:1828-1841 | The loop over the six keys, and the bearer pass, compose the passes in order |
| LogMaskAll.EverythingMasked | cc-cli-adapters/src/lib.rs:1828-1841 | In the masked text, whatever the text was, every occurrence of each of the six keys, in any case, has its value masked and every `bearer ` its word |
| LogMaskAll.LogLineMasked | cc-cli-adapters/src/lib.rs:1810-1824 | A key in the line the log gets, shortened or replaced as it may be, stands at the same place in the masked text, where its value is masked |
| LogMaskAll.LogLineTells | cc-cli-adapters/src/lib.rs:1810-1824 | The line is the masked text up to 120 characters, of a longer one the first 60 and its length, and of developer instructions only their length |
| LikeSearch.BeginsIsPrefix | cc-memory/src/repository.rs:374 | The prefix relation used is equality of the first characters up to ASCII case |
| LikeSearch.ContainsIsSubstring | cc-memory/src/repository.rs:374 | The substring relation used is: the text begins some suffix |
| LikeSearch.PatternIsSubstring | cc-memory/src/repository.rs:374-381 | For text without a backslash, the pattern matches under LIKE with the escape character exactly the strings that contain the text |
| LikeSearch.SubstringSearchExactly | cc-memory/src/repository.rs:374-381 | The search is a substring search on all strings if and only if the text holds no backslash |
| LikeSearch.SearchLike | cc-memory/src/repository.rs:366-420 | The total is the number of selected rows; the page holds those from the offset on, as many as the limit allows, in table order; the flag says whether any are left behind it |
| LikeSearch.TakePage | cc-memory/src/repository.rs:408-419 | The same for the rows of one page out of the matching ones |
| LikeSearch.WalkIsComplete | cc-memory/src/repository.rs:415-419 | Following the flag by one page size at a time returns every matching row exactly once, in order, and stops |
| LikeSearch.StuckExactly | cc-memory/src/repository.rs:415-419 | A page promises more without advancing if and only if the page size is zero and rows are left |
| LikeSearch.MatchingIsSelection | cc-memory/src/repository.rs:376-382 | The rows returned are the undeleted ones that pass the filters and contain the text in title, content or tags |
| LikeSearch.MatchingInOrder | cc-memory/src/repository.rs:376-402 | The selected rows are the table at certain positions, in its order and each once, and at no other position is a row selected |
| HookCommand.QuotedIsOneWord | cc-cli-adapters/src/lib.rs:68 | A shell reads the quoted path as one word, and that word is the path, for every path |
| HookCommand.GuardedCommandReads | cc-cli-adapters/src/lib.rs:60-70 | For every path and every subcommand, a shell reads the guarded command with the path verbatim in both places, and then whatever it makes of the unquoted subcommand |
| HookTable.TableCommandsRoundTrip | cc-cli-adapters/src/claude.rs:49-150 | Every command built from the table reads as the intended words |
| HookTable.OursExactly | cc-cli-adapters/src/claude.rs:557-572 | An entry counts as CC-Panes' own if and only if the command of one of its hooks holds the name of the hook binary, or of the one it replaced, anywhere in it |
| HookTable.EntryIsOurs | cc-cli-adapters/src/claude.rs:557-572 | An entry the sync writes is recognised as its own exactly when the command names a hook binary |
| HookTable.EntryMatchesOnly | cc-cli-adapters/src/claude.rs:592-633 | An entry written for one definition matches that definition, and no other whose matchers differ, current or legacy |
| HookTable.ClaimedForms | cc-cli-adapters/src/claude.rs:592-633 | Which entries each definition of the table claims, by matcher and first command: its own form, three older matchers and two older subcommands |
| HookTable.PathNamesHook | cc-cli-adapters/src/claude.rs:557-572 | A path that contains a hook binary name gives commands that do, quoting included |
| HookTable.TableIsSeparated | cc-cli-adapters/src/claude.rs:49-150 | No two definitions of one event claim the same matcher |
| HookSync.MergeOneMore | cc-cli-adapters/src/claude.rs:574-590 | Merging definition by definition amounts to dropping what any of them claims and appending the enabled ones in table order |
| HookSync.Retain | cc-cli-adapters/src/claude.rs:586 | The retain loop keeps exactly the entries that the definition does not claim, in order |
| HookSync.Merge | cc-cli-adapters/src/claude.rs:574-646 | One definition touches one event only, and adds its entry only when enabled |
| HookSync.SyncHooks | cc-cli-adapters/src/claude.rs:1039-1067 | The loop over the table: every event ends as the synced form of what it was, other events untouched, empty ones dropped |
| HookSync.RetainUsers | cc-cli-adapters/src/claude.rs:1117-1123 | The retain loop of cleanup keeps exactly the entries without a hook binary command, in order |
| HookSync.UsersShrink | cc-cli-adapters/src/claude.rs:1121-1124 | Comparing lengths is a sound change test: the length drops exactly when one of our entries was there |
| HookSync.CleanHooks | cc-cli-adapters/src/claude.rs:1116-1130 | Every event ends cleaned, and the flag is set exactly when some event held an entry of ours |
| HookLaws.ExactlyOneEntry | cc-cli-adapters/src/claude.rs:1005-1070 | After a sync, whatever was there, legacy entries included: a disabled definition has no matching entry, and an enabled one has exactly one if and only if its command names a hook binary, none otherwise |
| HookLaws.EntryIsWritten | cc-cli-adapters/src/claude.rs:1039-1059 | After a sync every enabled definition has an entry with its matcher and one hook: a command, the guarded command line, its time limit, asynchronous but for permission requests |
| HookLaws.UsersKeepOrder | cc-cli-adapters/src/claude.rs:574-590 | The entries without a hook of CC-Panes stay, in order and with none added, if and only if every command written names a hook binary |
| HookLaws.SecondSyncExactly | cc-cli-adapters/src/claude.rs:1005-1070 | A second sync leaves an event as it is if and only if every command written names a hook binary |
| HookLaws.CleanupAfterSync | cc-cli-adapters/src/claude.rs:1096-1133 | Cleanup after sync leaves what cleanup alone would, if and only if every command written names a hook binary |
| HookLaws.NamedPathSuffices | cc-cli-adapters/src/claude.rs:557-572 | A binary path with the hook name in it satisfies that condition for all definitions and wishes |
| HookLaws.SyncTwiceIsOnce | cc-cli-adapters/src/claude.rs:1005-1070 | On whole hook maps, non-array events included: two syncs equal one |
| HookLaws.CleanupUndoesSync | cc-cli-adapters/src/claude.rs:1096-1133 | On whole hook maps: cleanup after sync equals cleanup of the original, for any wishes |
| HookLaws.UnnamedPathPilesUp | cc-cli-adapters/src/claude.rs:1005-1070 | A binary path without the name: a second sync changes the event, and cleanup leaves what was written |
| HookUsers.MixedExactly | cc-cli-adapters/src/claude.rs:557-572 | An entry holds a hook of CC-Panes and one of the user exactly when dropping it loses a hook of the user |
| HookUsers.CleanupKeepsHooksExactly | cc-cli-adapters/src/claude.rs:1116-1124 | Cleanup keeps all hooks of the user, in order, if and only if no entry holds one of each |
| HookUsers.SyncKeepsHooksExactly | cc-cli-adapters/src/claude.rs:574-610 | A sync does, if and only if no definition of the event claims such an entry |
| HookUsers.RoundTripKeepsHooksExactly | cc-cli-adapters/src/claude.rs:1005-1133 | Sync and cleanup together do, if and only if the event holds no such entry |
| HookUsers.HookSurvivesExactly | cc-cli-adapters/src/claude.rs:1005-1133 | The entry of one hook of the user outlives sync and cleanup if and only if no hook in it is CC-Panes' own |
| HookUsers.MixedEntryLosesHook | cc-cli-adapters/src/claude.rs:557-610 | An entry that both remove, with the hook of the user in it |
| HookSettings.SettingsFile.Sync | cc-cli-adapters/src/claude.rs:1005-1070 | Each refusal, exactly when the document calls for it, with the file untouched; otherwise an object with the synced hook map in which every key other than `hooks` is there exactly when it was before, with the same value |
| HookSettings.SettingsFile.Cleanup | cc-cli-adapters/src/claude.rs:1096-1133 | The file is written exactly when it held an entry of ours; then every key other than `hooks` is there exactly when it was before, with the same value |
| HookSettings.FileRoundTrip | cc-cli-adapters/src/claude.rs:1005-1133 | Sync then cleanup, on documents: under `hooks` what cleanup alone would leave, and every other key there exactly when it was before, with the same value |
| ManagedUrl.ShapeIsManaged | cc-cli-adapters/src/cursor.rs:90-126 | Any URL with the loopback host, a numeric port, path `/mcp` and a first query key `token` is recognised, whatever follows |
| ManagedUrl.PrintedIsManaged | cc-cli-adapters/src/cursor.rs:72-126 | Every URL the program can print, for any port, token and launch id, is recognised as its own |
| ManagedUrl.PrintedReadsBack | cc-cli-adapters/src/cursor.rs:72-87 | Taken apart again, a printed URL tells the port, the token and the launch id it was printed with |
| ManagedUrl.TrimmedLaunchId | cc-cli-adapters/src/cursor.rs:78-85 | A launch id without white space around it is printed as it is, a blank one not at all |
| ManagedServers.SyncServers | cc-cli-adapters/src/cursor.rs:137-215 | Own entry first, then the shared servers in any order: the map after the sync, and a change flag that is set exactly when some write replaced a different value |
| ManagedServers.ForeignSurvives | cc-cli-adapters/src/cursor.rs:128-215 | An entry without a URL, or whose URL is not recognised, survives a sync, also under a name CC-Panes wants; which URLs are is settled in `ManagedUrlExactly` |
| ManagedServers.OwnEntryFollows | cc-cli-adapters/src/cursor.rs:137-215 | A new URL replaces the old own entry and is introduced where there was none |
| ManagedServers.EntryExactly | cc-cli-adapters/src/grok.rs:280-297 | Field by field: for Cursor the entry is the URL alone; for Grok it is the URL and the switch, and every other field as it was |
| ManagedServers.UpsertTwice | cc-cli-adapters/src/grok.rs:280-297 | Writing the same URL twice is writing it once, in the form that replaces an entry and in the form that sets keys in it |
| ManagedServers.RepeatReportsChangeExactly | cc-cli-adapters/src/cursor.rs:137-215 | A repeated sync writes an entry anew, and for Cursor reports a change, if and only if a shared server called `ccpanes`, with another recognised URL, contests the own entry |
| ManagedServers.SharedUpdateExactly | cc-cli-adapters/src/cursor.rs:180-205 | A shared server takes a new URL if and only if it is the same or the old one was recognised |
| ManagedServers.RemoveUndoesSync | cc-cli-adapters/src/cursor.rs:217-236 | Removal after sync restores the map if and only if it held no own entry, no shared server called `ccpanes` leaves a foreign one, and every other shared server was there and left as it was |
| ManagedServers.SharedUrlIsForeign | cc-panes-core/src/services/shared_mcp_service.rs:361-384 | No URL under which the program hands over a shared server is recognised as its own |
| ManagedServers.SharedPortNeverFollows | cc-cli-adapters/src/cursor.rs:182-200 | So once such a server is in the map, a changed port is never written |
| ManagedServers.ProgramNeverContests | cc-cli-adapters/src/cursor.rs:137-215 | With such servers a repeated sync never reports a change |
| ManagedServers.SharedCcpanesTakesOver | cc-cli-adapters/src/cursor.rs:165-200 | But one called `ccpanes` takes the own entry for good: no later URL of the program enters |
| ManagedServers.CursorConfig.Sync | cc-cli-adapters/src/cursor.rs:137-215 | Each refusal, exactly when the document calls for it, with the file untouched; no write without a change; otherwise the synced map, and every key other than `mcpServers` there exactly when it was before, with the same value |
| ManagedServers.CursorConfig.Remove | cc-cli-adapters/src/cursor.rs:217-236 | Removes the entry called `ccpanes` exactly when its URL is recognised, and nothing else, no other server and no other key; writes only then |
| ManagedUrlExactly.TokenExactly | cc-cli-adapters/src/cursor.rs:117-125 | The query is found to hold a token if and only if that key stands somewhere in it between ampersands or ends, with a value or without |
| ManagedUrlExactly.LoopbackExactly | cc-cli-adapters/src/cursor.rs:98-112 | The host found is what follows the last `@`, inside brackets or up to the first colon |
| ManagedUrlExactly.ManagedUrlExactly | cc-cli-adapters/src/cursor.rs:90-126 | A URL is taken for the program's own if and only if it has the shape given by positions: scheme, loopback host, a path beginning with `/mcp`, and a key `token` after the first question mark, even one behind a hash |
| ManagedUrlExactly.UserUrlIsTaken | cc-cli-adapters/src/cursor.rs:90-126 | A development server of the user on localhost with a token of its own has that shape |
| ManagedUrlExactly.UserEntryIsLost | cc-cli-adapters/src/cursor.rs:165-236 | Under the program's name its entry is overwritten by a sync and taken away by a removal |
| RpcPending.RequestKeeps | cc-cli-adapters/resources/pi-mcp-bridge.js:47-55 | A request issues an id that is neither pending nor settled, and keeps the table consistent |
| RpcPending.SettleKeeps | cc-cli-adapters/resources/pi-mcp-bridge.js:38-45 | Settling keeps it consistent: no id is settled twice, no timer outlives its entry |
| RpcPending.FireKeeps | cc-cli-adapters/resources/pi-mcp-bridge.js:47-55 | So does a timer that fires |
| RpcPending.TimerRejectsOwn | cc-cli-adapters/resources/pi-mcp-bridge.js:47-55 | A timer rejects its own request if that is pending, and leaves every other as it was |
| RpcPending.RejectKeeps | cc-cli-adapters/resources/pi-mcp-bridge.js:57-61 | So does rejecting a list of ids, and exactly those stop being pending |
| RpcPending.AllAreRejected | cc-cli-adapters/resources/pi-mcp-bridge.js:57-61 | Rejecting all settles each pending request once, oldest first, with that reason, and nothing is pending |
| RpcPending.HandleKeeps | cc-cli-adapters/resources/pi-mcp-bridge.js:63-74 | So does any incoming message, malformed ones included |
| RpcPending.RunsAreConsistent | cc-cli-adapters/resources/pi-mcp-bridge.js:34-74 | In every run, closed and killed servers included, every issued id is pending with its timer armed or settled exactly once, and no other id is either |
| RpcPending.SettlementsAreFinal | cc-cli-adapters/resources/pi-mcp-bridge.js:34-74 | Settlements are only ever appended and ids only grow, so ids are never reused |
| RpcPending.NeverCrossed | cc-cli-adapters/resources/pi-mcp-bridge.js:63-74 | A message settles at most the pending request whose number it carries, with its own error or result, and every other request stays pending |
| RpcPending.TakenExactly | cc-cli-adapters/resources/pi-mcp-bridge.js:63-74 | A message has an effect if and only if its id is a number that is pending |
| RpcPending.OnlyResponsesSettleExactly | cc-cli-adapters/resources/pi-mcp-bridge.js:63-74 | In every run, no request of the server's own settles one of the client's if and only if none bears the number of a request that was issued and is not settled |
| RpcPending.PingSettlesRequest | cc-cli-adapters/resources/pi-mcp-bridge.js:63-74 | A ping of the server with such a number resolves the request, with an undefined result |
| RpcPending.ExitSettlesExactly | cc-cli-adapters/resources/pi-mcp-bridge.js:140-142 | When the server exits, nothing is left pending if and only if the client is not closed or nothing was; then no timer is armed and every issued id is settled |
| RpcPending.NothingPendsAfterExit | cc-cli-adapters/resources/pi-mcp-bridge.js:140-173 | After the exit, with a code, of an open client's server, nothing is ever pending again, whatever follows |
| RpcPending.KilledServerLeavesPending | cc-cli-adapters/resources/pi-mcp-bridge.js:171-173 | After a server was killed a request is still issued and stays pending |
| RpcPending.HandshakeCloseIsClean | cc-cli-adapters/resources/pi-mcp-bridge.js:144-150 | A client that is closed because its handshake failed has nothing pending, then or after the exit that rejects nothing |
| StdioBridge.CutAnywhere | cc-cli-adapters/resources/pi-mcp-bridge.js:152-165 | Cutting a text anywhere and carrying over what follows the last newline yields the same lines and the same rest |
| StdioBridge.ChunkingIsInvisible | cc-cli-adapters/resources/pi-mcp-bridge.js:152-165 | Any chunking dispatches the lines of the whole stream and keeps its rest; which lines these are is said in `StdioLines.DispatchedExactly` |
| StdioBridge.RestHasNoNewline | cc-cli-adapters/resources/pi-mcp-bridge.js:152-165 | The buffer never holds a newline between chunks |
| StdioBridge.TableIgnoresChunking | cc-cli-adapters/resources/pi-mcp-bridge.js:152-165 | The pending table depends on the stream alone, not on its chunking; which table it is is said in `StdioLines.StreamIsRun` |
| StdioLines.TrimExactly | cc-cli-adapters/resources/pi-mcp-bridge.js:152-165 | Trimming leaves the part between two positions: outside it only white space, by code point, and none at its ends |
| StdioLines.EveryTextIsLines | cc-cli-adapters/resources/pi-mcp-bridge.js:152-165 | Every text is a number of lines, each with a newline behind it, and a rest without one |
| StdioLines.LinesExactly | cc-cli-adapters/resources/pi-mcp-bridge.js:152-165 | Of such a text the lines dispatched are, position by position and in order, what trimming leaves of its lines; those left out hold white space only; the rest is kept |
| StdioLines.DispatchedExactly | cc-cli-adapters/resources/pi-mcp-bridge.js:152-165 | The same of a stream, however it is cut into chunks |
| StdioLines.StreamIsRun | cc-cli-adapters/resources/pi-mcp-bridge.js:152-165 | After a stream, in whatever chunks, the table is that of the run that received exactly the messages its lines parse to, in order |
| StdioBridge.Rpc.TrackRequest | cc-cli-adapters/resources/pi-mcp-bridge.js:47-55 | The method is the request step of the state machine |
| StdioBridge.Rpc.SettlePending | cc-cli-adapters/resources/pi-mcp-bridge.js:38-45 | The method is the settle step: an unknown id has no effect |
| StdioBridge.Rpc.TimerFires | cc-cli-adapters/resources/pi-mcp-bridge.js:47-55 | The timer callback is the timer step |
| StdioBridge.Rpc.RejectAllPending | cc-cli-adapters/resources/pi-mcp-bridge.js:57-61 | The loop over a copy of the keys rejects every pending request |
| StdioBridge.Rpc.HandleMessage | cc-cli-adapters/resources/pi-mcp-bridge.js:63-74 | The method is the message step |
| StdioBridge.StdioClient.OnStdout | cc-cli-adapters/resources/pi-mcp-bridge.js:152-165 | The while loop leaves the rest after the last newline and dispatches the complete lines of buffer and chunk |
| StdioBridge.StdioClient.OnExit | cc-cli-adapters/resources/pi-mcp-bridge.js:140-142 | The exit handler rejects every pending request, unless the client is closed |
| ConfigWorker.StepIsSafe | cc-cli-adapters/src/opencode.rs:534-625 | Every step of caller or worker keeps the invariant of the protocol |
| ConfigWorker.RunIsSafe | cc-cli-adapters/src/opencode.rs:534-625 | Hence every interleaving does |
| ConfigWorker.WroteExactly | cc-cli-adapters/src/opencode.rs:504-532 | What the worker has written is what its write steps produced, and its environment announces exactly the configurations among it |
| ConfigWorker.ManagedLaunchExactly | cc-cli-adapters/src/opencode.rs:504-624 | With a managed provider a launch carries the environment received from the worker: the main configuration if and only if its write produced a file, and nothing at all if and only if neither write did |
| ConfigWorkerVerdicts.VerdictExactly | cc-cli-adapters/src/opencode.rs:553-624 | In every run, managed or not, why the call returned what it did: it could not start the worker, timed out, found a worker that has panicked, or received its result, an error or an environment; and it has returned exactly when one of these steps was taken |
| ConfigWorkerVerdicts.ErrorExactly | cc-cli-adapters/src/opencode.rs:504-532 | In every run the result of the worker is an error if and only if a write failed or an old file could not be removed |
| ConfigWorkerVerdicts.EnvironmentExactly | cc-cli-adapters/src/opencode.rs:511-531 | In every run the environment of a successful worker has each of the two variables exactly when that configuration was written, and its file as the value |
| ConfigWorkerFiles.ManagedCanLaunchNative | cc-cli-adapters/src/opencode.rs:228-230 | A run in which a managed provider launches on the native configuration, since there was nothing to write |
| ConfigWorker.UnmanagedAlwaysLaunches | cc-cli-adapters/src/opencode.rs:563-623 | Without one, the call never refuses |
| ConfigWorker.DeletesOnlyAfterTimeout | cc-cli-adapters/src/opencode.rs:553-606 | The worker deletes the session directory only if the caller took the timeout branch, and so returned no file |
| ConfigWorker.ReturnedFilesStay | cc-cli-adapters/src/opencode.rs:504-625 | Every file a returned environment names exists then and in every later state of the call |
| ConfigWorker.AtMostTenSteps | cc-cli-adapters/src/opencode.rs:534-625 | Every interleaving ends: no run has more steps than the two ranks allow, ten from the start |
| ConfigWorker.CallerNeverStuck | cc-cli-adapters/src/opencode.rs:582-624 | Until it has returned, the caller can take a step |
| ConfigWorkerFiles.TimeoutLeavesExactly | cc-cli-adapters/src/opencode.rs:112-606 | In every run, once the worker has stopped: it has removed the session directory if and only if it looked at the flag after the caller had set it, and then what this removal failed to take is left; otherwise the directory holds what it held before, without the two old files as far as they were removed, and exactly the files written |
| ConfigWorkerFiles.FileLeftExactly | cc-cli-adapters/src/opencode.rs:112-556 | The same file by file: there exactly when it was written, or was there and is not one of the two old files removed; and, if the directory was removed, when that removal failed on it |
| ConfigWorkerFiles.SuccessClearsOld | cc-cli-adapters/src/opencode.rs:112-119 | Whatever an earlier launch left, when the worker succeeds neither of the two old files is in the directory |
| ConfigWorkerFiles.RelaunchClearsOld | cc-cli-adapters/src/opencode.rs:112-119 | A relaunch over both configurations, both old files and another file: the configurations anew, the old files gone, the other as it was |
| ConfigWorkerFiles.TimeoutCanLeaveFiles | cc-cli-adapters/src/opencode.rs:553-556 | A worker that looked before the deadline is such a case: the call has timed out and the file stays |
| RefreshGate.StepIsSafe | cc-cli-adapters/src/lib.rs:312-361 | Every access to the cache or the gate, by any thread, keeps the invariant |
| RefreshGate.ReadsAreSpaced | cc-cli-adapters/src/lib.rs:339-361 | Over every interleaving real reads never overlap, and each starts at least the interval after any earlier snapshot was stored |
| RefreshGate.AtMostOneReader | cc-cli-adapters/src/lib.rs:345-353 | At most one thread reads at a time |
| RefreshGate.CachedAnswersAreYoung | cc-cli-adapters/src/lib.rs:318-330 | A cached answer is younger than the interval when it is taken |
| RefreshGate.AnswersWereRead | cc-cli-adapters/src/lib.rs:312-361 | In every run an own answer is what a read of that thread returned, and a cached one what some read returned |
| RefreshGate.CallAnswers | cc-cli-adapters/src/lib.rs:339-361 | An undisturbed call: a young snapshot is answered; else nothing when the gate is taken or poisoned; else the directories are read, stored and answered, and the gate is free again |
| RefreshGate.PoisonedExactly | cc-cli-adapters/src/lib.rs:345-347 | In every run the gate ends poisoned if and only if some read panicked |
| RefreshGate.PanicEndsReading | cc-cli-adapters/src/lib.rs:345-347 | Once the gate is poisoned no read ever starts again |
| AtomicWrite.CrashLeavesWholeTarget | cc-cli-adapters/src/fs_atomic.rs:21-65 | At every crash point of every interleaving, rename retries included, the target holds a complete content, and is there if it was |
| AtomicWrite.CrashLeavesOldOrNew | cc-cli-adapters/src/fs_atomic.rs:21-65 | Without a save by the user that content is the old one or the whole content of one writer |
| AtomicWrite.WholeGrowsBySavesOnly | cc-cli-adapters/src/fs_atomic.rs:21-65 | What counts as complete is what was there, what the writers write, and what the user saved |
| AtomicWrite.TargetStays | cc-cli-adapters/src/fs_atomic.rs:54-65 | Under writers and saves, an existing target is never absent, at no point of any run |
| AtomicWrite.OnlyInstallingChangesTarget | cc-cli-adapters/src/fs_atomic.rs:54-65 | Only a successful rename or link, or the user, changes the target, and then it shows that content in full |
| AtomicWrite.StepExactly | cc-cli-adapters/src/fs_atomic.rs:21-65 | What each system call does to each file: writing fills the temporary one, a rename moves it over the target, a link gives its content the free name, a removal takes it away; no other file changes |
| AtomicWrite.ExistingTargetIsKept | cc-cli-adapters/src/atomic_file.rs:44-72 | Any number of concurrent installations without replacing leave an existing target alone |
| AtomicWrite.AtMostOneInstalls | cc-cli-adapters/src/atomic_file.rs:44-72 | No step makes a second writer an installer |
| AtomicWrite.AtMostOneReturnsTrue | cc-cli-adapters/src/atomic_file.rs:44-72 | Of any number of concurrent calls at most one returns true |
| AtomicWriteCalls.Disk.WriteAndSync | cc-cli-adapters/src/fs_atomic.rs:43-52 | A run of the machine that succeeds exactly when every system call it makes works, and stops at the first that fails |
| AtomicWriteCalls.Disk.RenameWithRetry | cc-cli-adapters/src/fs_atomic.rs:54-65 | The first of five renames to work is the last one made, and then the target holds the content; it fails only when all five do, and then it is as it was |
| AtomicWriteCalls.Disk.WriteAtomic | cc-cli-adapters/src/fs_atomic.rs:21-41 | For every fate of the system calls: it fails only when one of the writing or all renames do. On success the target holds the content in full and the temporary file is gone; on failure the target is as it was; no other file changes |
| AtomicWriteCalls.Disk.WriteAtomicIfAbsent | cc-cli-adapters/src/atomic_file.rs:44-72 | For every fate of the system calls: it fails only when one does, and otherwise tells whether the target was there. An existing target is as it was, a missing one holds the content on success; the temporary file is given up in each case, and no other file changes |
| CodexTrust.MergeTrustedProjects | cc-cli-adapters/src/codex.rs:600-641 | The loop over the targets: refused if one is no table; otherwise the merged entries, with the flag set exactly when they differ |
| CodexTrust.PrewriteTwice | cc-cli-adapters/src/codex.rs:600-641 | A second prewrite changes nothing and is refused no more than the first |
| CodexTrust.GrantedExactly | cc-cli-adapters/src/codex.rs:600-655 | Entry by entry: a targeted table without a trust level gets `trusted`, marked unless the table is inline; a missing target gets an entry with that alone; nothing else changes |
| CodexTrust.DecisionsAreKept | cc-cli-adapters/src/codex.rs:628-632 | An existing trust level is never changed; neither is any other field or any project not targeted |
| CodexTrust.RemoveMarked | cc-cli-adapters/src/codex.rs:698-722 | The loop over the projects: the cleaned entries, with the flag set exactly when they differ |
| CodexTrust.CleanupExactly | cc-cli-adapters/src/codex.rs:698-722 | Exactly the marked trust levels go, and a project goes exactly when that was all it held |
| CodexTrust.NothingMarkedLeft | cc-cli-adapters/src/codex.rs:698-722 | After cleanup nothing is marked, and a second cleanup changes nothing |
| CodexTrust.RefusalIsStable | cc-cli-adapters/src/codex.rs:611-627 | Whether a prewrite is refused does not change through prewrites and cleanups |
| CodexTrust.RunAt | cc-cli-adapters/src/codex.rs:600-722 | After any run of prewrites and cleanups, a cleanup leaves of a project what it would after one grant, or none |
| CodexTrust.CleanupUndoesRunExactly | cc-cli-adapters/src/codex.rs:600-722 | Over every run of prewrites and cleanups, a final cleanup restores the original entries if and only if none was marked, no missing project was targeted in an inline table, and every undecided target is a non-empty standard table |
| CodexTrust.CleanupUndoesPrewriteExactly | cc-cli-adapters/src/codex.rs:600-722 | The same for one prewrite and one cleanup, on every document |
| CodexTrust.EmptyProjectIsLost | cc-cli-adapters/src/codex.rs:629-717 | An empty project that is granted trust is gone after the cleanup |
| CodexTrust.InlineTrustStays | cc-cli-adapters/src/codex.rs:647-655 | Trust granted to a project in an inline table stays after the cleanup |
| CodexTrust.PrintedSectionIsStale | cc-cli-adapters/src/codex.rs:1059-1105 | A section with any URL the program could print counts as its own |
| CodexTrust.DecisionSurvives | cc-cli-adapters/src/codex.rs:600-722 | Through every run, an unmarked decision, or an entry that is no table, stays as the user left it |
| CodexTrust.CodexConfig.Prewrite | cc-cli-adapters/src/codex.rs:534-598 | The file is written only in yolo mode, with a key, without refusal and for a change; then only the project entries differ. Each refusal has its cause, and on success every target has a trust level |
| CodexTrust.CodexConfig.Cleanup | cc-cli-adapters/src/codex.rs:688-746 | On success marked trust is gone, and the section `ccpanes` exactly when its URL is recognised or it names the token variable; the other servers and the rest of the document are as before; the file is written only for a change |
| BoundedHead.ReadPlanHeadBounded | cc-panes-cli-hook/src/plan_archive.rs:282-311 | However the system splits the reads, the result is the one due for the file alone unless one of them fails, and none is made after that; at most 65537 bytes are taken in, the remaining count never underflows, and the loops end |
| BoundedHead.PlanFile.Read | cc-panes-cli-hook/src/plan_archive.rs:291 | A read delivers some non-empty part of what was asked for, nothing only at the end, or fails, as the system decides |
| BoundedHead.ExpectedExactly | cc-panes-cli-hook/src/plan_archive.rs:282-311 | That result is the shortest prefix with 80 newlines, or the whole file when it has fewer, exactly when it has at most 65536 bytes and is valid UTF-8 |
| Utf8Text.ValidExactly | cc-panes-cli-hook/src/plan_archive.rs:310 | What counts as valid UTF-8 there: exactly the encodings of sequences of code points that are no surrogates (RFC 3629, section 3) |
| BoundedHead.HeadStaysValid | cc-panes-cli-hook/src/plan_archive.rs:296-305 | Cutting valid text behind a newline leaves valid text |
| BoundedHead.ValidFileExactly | cc-panes-cli-hook/src/plan_archive.rs:282-311 | For a valid UTF-8 file nothing is returned if and only if its first 80 lines exceed 65536 bytes |
| BoundedHead.TailIsIrrelevant | cc-panes-cli-hook/src/plan_archive.rs:288-308 | What follows the 80th newline has no influence |
| VersionOrder.CompareVersionDirNames | cc-cli-adapters/src/lib.rs:699-721 | The index loop computes the comparison the laws below speak about |
| VersionText.NamesExactly | cc-cli-adapters/src/lib.rs:699-721 | On all names: one comes first if and only if its segment does at the first position where the two differ, by value when both are numbers and by text otherwise, a missing segment being zero |
| VersionText.TextExactly | cc-cli-adapters/src/lib.rs:714 | By text means: lower at the first code point that differs, or a proper beginning |
| VersionText.ParseExactly | cc-cli-adapters/src/lib.rs:712 | A segment is a number exactly when it is the decimal form of one of 64 bits, with zeros and one plus sign in front allowed, and then it is that number |
| VersionText.TrimVExactly | cc-cli-adapters/src/lib.rs:701 | Every leading `v` and `V` is stripped, and nothing else |
| VersionText.SplitExactly | cc-cli-adapters/src/lib.rs:702 | The segments hold no dot, and joined by dots they give the name back |
| VersionOrder.NumericOrderExactly | cc-cli-adapters/src/lib.rs:699-721 | On names whose segments all parse, the comparison is the lexicographic order of the zero-padded numbers, in all three outcomes |
| VersionOrder.NumericPreorder | cc-cli-adapters/src/lib.rs:699-721 | On such names it is reflexive, total and transitive |
| VersionOrder.NamesFlip | cc-cli-adapters/src/lib.rs:699-721 | Swapping the arguments reverses the outcome, for all names |
| VersionOrder.SegmentsTransitiveExactly | cc-cli-adapters/src/lib.rs:712-715 | Segments of a set compare transitively if and only if none that is no number stands, as text, between two numbers that text orders the wrong way |
| VersionOrder.NamesTransitiveExactly | cc-cli-adapters/src/lib.rs:699-721 | All names built from a set of segments compare transitively if and only if the same holds of the set |
| VersionOrder.MixedSegmentsCycle | cc-cli-adapters/src/lib.rs:712-715 | 9 < 10 < 1a < 9 |
| VersionOrder.ListedNewestFirst | cc-cli-adapters/src/lib.rs:726-747 | What a filter keeps of a list with neighbours in order is descending throughout and complete, for names over a safe set of segments |
| VersionOrder.SortNewestFirst | cc-cli-adapters/src/lib.rs:735-741 | The insertion sort of the model permutes the names and puts all neighbours in order, whatever the names |
| VersionOrder.NvmNodeBinDirs | cc-cli-adapters/src/lib.rs:726-747 | With the insertion sort of the model: every directory with a `bin` is listed as often as it is there and nothing else is; newest first throughout, unless a segment that is no number is wedged between two numbers |
| VersionOrder.PrintedVersionsAreNumeric | cc-cli-adapters/src/lib.rs:699-707 | Names such as v20.11.1 fall under the numeric case and read back as the numbers they were printed from |

## Left out

- The parsing and printing of JSON and TOML text: documents are maps and sequences of values, and a parse failure is
  one outcome. TOML comments appear only as the ownership marker on a value.
- Backup copies (`.bak`, `.json.bak`), `.gitignore` guards, parent directories, legacy script removal, log messages,
  and the check that path arguments are not empty. The order of the reported collisions: they are a set.
- `collect_mcp_servers`: three layers inserted one after the other. Its result is an arbitrary desired map here, and
  the injection theorems quantify over all of them.
- In-process locks around the settings and trust files, and the uniqueness of temporary names, are assumed.
- ConfigLifecycle.DataDir.Collect: a scan that runs alone. `ConfigRuns` has other sessions act between its steps, but
  takes the looks at one file (its kind, its marker, the marker's content and age) as one step. What a link points to is
  not modelled.
- LogMask.MaskAssignmentValues: positions count characters, not bytes. The log line cuts the masked text at 60
  characters, stars included, and shows nothing beyond it.
- LikeSearch.SearchLike: the table order is taken to be total, which `ORDER BY importance DESC, updated_at DESC` is
  not when rows tie; the optional filters are one predicate; page size and offset are unbounded naturals; database
  errors and the full-text branch are not part of this model.
- HookCommand.GuardedCommandReads: only the POSIX form is read back; the Windows form is written but not parsed. The
  source quotes a lossy conversion of the path, so a path that is not valid Unicode is not the one read back.
- ManagedServers.SyncServers: for Grok only the map is modelled, not the change test on the printed text nor the
  formatting; a write failure is modelled for the Cursor file only.
- RpcPending.RequestKeeps: only the synchronous part of `request`, once the server runs; the HTTP client, the
  handshake and the writing of requests are not part of this model. Ids in messages are integers, strings, other
  values or absent; fractional numbers, which are never issued, are not distinguished.
- ConfigWorkerFiles.TimeoutLeavesExactly: one call per session id. A late worker of an earlier call for the same session
  removes the same directory. What the files contain, temporary files that a failing write leaves, the theme file in the
  project, and entries of the directory that are no plain files, or cannot be looked at, are not part of this model.
- RefreshGate.ReadsAreSpaced: the interval, 10 or 60 seconds by platform, is a parameter; how the directories are
  read is not part of this model.
- AtomicWrite.TargetStays: the user saves the target but nobody deletes it; `AtomicWrite.AtMostOneReturnsTrue` assumes
  the same. Away from Windows: there `rename_with_retry` falls back to removing the target first, which leaves a window
  without it, and `atomic_file.rs` replaces through `ReplaceFileW`.
- AtomicWriteCalls.Disk.WriteAtomic: the calls run alone here, which ties their control flow to the machine; the
  interleavings are the machine's.
- CodexTrust.CodexConfig.Prewrite: which key an error message names, and how keys are derived from paths, are not part
  of this model.
- BoundedHead.ReadPlanHeadBounded: a file that cannot be opened, which also yields nothing.
- VersionOrder.SortNewestFirst: an insertion sort stands for the library's stable sort; on names that do not compare
  transitively the library may order otherwise, or panic. File names that are not valid Unicode are not modelled.
- Process spawning, WSL scripts, registry and login-shell reads, Tauri commands, the user interfaces and the mobile
  clients.
- ConfigWorker, RefreshGate, AtomicWrite and RpcPending are values stepped by functions, not objects: their subject is
  the interleaving, which no single method shows.
