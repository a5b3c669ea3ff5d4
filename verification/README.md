# Verification model of github-vuln-watcher

github-vuln-watcher polls the repositories of one GitHub owner, runs each consenting
repository's own vulnerability gates, and publishes one create-task command per finding
set. A cursor file remembers the last finding set published for each repository. This
project models that service in Dafny and proves what it promises over every run, every
answer of the outside world and every interleaving.

Verify with `dafny verify dfyconfig.toml`.

## How the model is built

| file | part of the service |
|---|---|
| `Wrappers.dfy`, `StringOrder.dfy`, `Sorting.dfy` | optional values, byte-wise order, the canonical form of a list, in-place sort of a set listed in any order |
| `Markers.dfy`, `Scanner.dfy` | marker search in gate output, the capped writer, the gate loop and its classification |
| `GateJoins.dfy` | several gates in one buffer: what their joins make and spoil, and when the order of the targets matters |
| `TaskId.dfy`, `Domain.dfy` | seed and task identifier, filter chain, emitted command, counters |
| `CursorStore.dfy` | cursor, file, temp file and corrupt copy; load and save |
| `PollSpec.dfy`, `Watcher.dfy` | one poll cycle as a function, and the same cycle as objects updated in place, proved equal |
| `Cycle.dfy` | the cycle as small steps, so that it can be cut anywhere |
| `Laws.dfy`, `Repeats.dfy`, `Endings.dfy` | laws of one cycle and of two in a row; when a finding set is sent again; endings and counts |
| `History.dfy`, `Runs.dfy` | whole runs with crashes, panics and lost files, and what holds after each |
| `Answers.dfy` | what a cycle does, told by the answers of GitHub and the scanner: who is sent what, who is skipped as what |
| `Gate.dfy`, `Service.dfy`, `Triggers.dfy` | the one-cycle slot, the trigger handler, unboundedly many actors interleaved, and which of their cycles are forced |
| `Body.dfy`, `Snippet.dfy`, `SnippetProofs.dfy`, `SnippetText.dfy`, `PeekCut.dfy` | peek and replay of a non-2xx body, the logged snippet in terms of code points, words and gaps, and a peek that cuts a character |
| `GitHubClient.dfy` | pagination and mapping of the listing, repo keys |

A Go string is a byte sequence; each byte is one `char` (`Byte` in the body and snippet
modules). Everything outside the service is an arbitrary answer: `PollSpec.Answers` and
`PollSpec.Visit` hold what GitHub, the scanner, the sender and the file system say in one
cycle, `Scanner.GateAnswer` what one gate process writes and returns, `GitHubClient.Fetch`
every page, `Body.Source` every cutting of a stream. What is proved for every record holds
for every behaviour.

Assumptions, each visible as a hypothesis or a type:

- `PollSpec.GoodConfig`: the cursor codec decodes what it encoded, and the text of a UUID
  is not empty.
- The name-based UUID (section 5.5 of RFC 9562) is a function of the seed.
  `TaskId.TaskIdIdentifies` assumes no collision between the two seeds at hand.
- The background runner of the trigger handler runs its body exactly once and returns nil,
  or returns an error and never runs it (`accepts` in `Gate.TriggerHandler.ServeHTTP`).
- A rename within the directory is atomic. A write of the temp file may stop after any
  number of bytes.
- An ended body keeps saying end of file. After it has reported a fault once, nothing more
  is expected of it.

## What turned out false, and the exact condition instead

- A snippet of the first 4096 bytes is not always the snippet of the body, even when the
  peek collapses to more than 200 characters. `PeekCut.PeekShowsBody` gives the exact
  exception: the cut falls inside a white-space character, only white space follows, and
  what was complete before the cut collapses to at most 200 characters.
  `PeekCut.PeekCanMislead` is such a body. The comment at `pkg/non2xx_log.go:32-33` does
  not mention it.
- The seed is ambiguous across owners: `TaskId.SeedAmbiguousAcrossOwners`.
  `TaskId.SeedDecodes` says exactly when two seeds agree; for one owner it is injective.
- A cap can show a marker that the full text does not hold: `Scanner.CapCanShorten`, at
  the real cap. `Scanner.CappedMarkers` says exactly which markers a capped text shows.
- Gate outputs can fuse into a marker that no gate printed, and then gate order matters:
  `GateJoins.GatesCanFuse`. `GateJoins.GateOrderExactly` says exactly when two orders of
  the targets give the same outcome: when their joins make and spoil the same markers.
  `GateJoins.ByGateExactly` says exactly when the buffer shows, place by place, what the
  gates printed: when no marker runs across a join. `GateJoins.HarmlessExactly` and
  `GateJoins.OrderHarmlessExactly` give the exact condition on one output alone, whatever
  the others print: no end of it could begin a marker. Ending the last line is sufficient
  for that (`GateJoins.LineEndCloses`), not necessary.
- The specification says that an unchanged finding set is emitted exactly once
  (`specs/completed/001-vuln-drift-watcher.md:81`). `Repeats.EmittedTwice` is a run of two
  non-forced cycles that sends one command twice, both times successfully.
  `Repeats.UnsavedSendRepeats` gives the exact condition for two cycles in a row: the
  second sends again if and only if the first did not count "success".
  Over whole runs, `Runs.SkippedIffRemembered` says exactly when a finding is passed over:
  the cycle is not forced, and the last successful send for the repo that the cycle can
  know of carried this identifier, or, without one, the file held it when it was last
  lost. `Endings.RateLimitForgetsProgress` shows where a rate limit loses progress while
  a cancellation (`Endings.CancelSavesProgress`) does not.

Where code and documents disagree the model follows the code. The specification names the
markers `GO-\d+` and `CVE-\d+`; the code asks for a second group of digits. A failed write
leaves a partial temp file behind; a failed rename removes it. Only the temp file of a
successful save is promised to be gone (`pkg/cursor.go:74-76`), and it is.

## Model

| member | source | states |
|---|---|---|
| Service.SlotAfterRun | pkg/cyclegate.go:30-44 | In every reachable state, for any number of trigger requests and the interval loop, with crashes and panics: the slot is full exactly when one actor is between acquire and release, at most one is, and whoever is about to release holds it. |
| Service.ServiceIsSerial | pkg/handler/trigger_handler.go:81-110 | However actors interleave, with crashes, panics and file loss, disk, topic and counters are those of a sequential machine that begins the cycles in the order in which the slot was acquired. |
| Service.SmoothRunIsPollAll | main.go:145-175 | Without crash, panic or outside change: when nobody holds the slot, file, published history and counters equal those of the same `Poll` calls made one after another in acquisition order; a cycle under way will complete that sequence. |
| Service.ServiceFile | pkg/watcher.go:110-129 | After any interleaving the cursor file is the fold of the successful sends of the saved cycles since the file was last lost. |
| Service.PollAllCounts | pkg/metrics.go:35-59 | Over a whole run of n cycles: n cycle results, every handled repo accounted for exactly once, detected vulnerabilities equal to the sum of list sizes, publish counts equal to sends, and only labels of the closed sets. |
| Service.ActKeepsHolder | pkg/cyclegate.go:30-44 | One action of any actor keeps a single holder, although `Release` drains the slot whoever filled it. |
| Service.ActMirrors | pkg/handler/trigger_handler.go:94-111 | One action of any actor is zero or one event of the sequential machine, and a cycle begins only when none is under way. |
| Triggers.CallOfActor | main.go:156-160 | In every reachable state the cycle an actor is about to run or runs is the one it got the free slot for: not forced for the interval loop, the request's own call, flag included, for a trigger. |
| Triggers.PollsWereAsked | pkg/handler/trigger_handler.go:81-96 | In every reachable state the cycles run so far are those of acquires on a free slot, one each and in that order, with the loop's unforced and the requests' own calls. |
| Triggers.RepeatNeedsTrigger | pkg/handler/trigger_handler.go:79-96 | In every run of the service in which a remembered identifier is sent again, some trigger request asks for a forced cycle; ticks and plain triggers never cause it. |
| Triggers.NoTriggerNoForce | main.go:156-158 | Without a forced trigger request no forced cycle is ever begun. |
| Triggers.CycleRuns | pkg/handler/trigger_handler.go:94-100 | Whoever comes to a free slot gets it, can run its cycle to the end as exactly one `Poll`, and leaves the slot free. |
| Triggers.TriggerAlone | pkg/handler/trigger_handler.go:81-111 | A trigger request on a taken slot changes nothing; on a free one it holds the slot for its own call if the runner takes it, and has given it back if not. |
| Gate.CycleGate.TryAcquire | pkg/cyclegate.go:30-37 | Succeeds exactly on an empty slot and leaves it full. |
| Gate.CycleGate.Release | pkg/cyclegate.go:39-44 | Leaves the slot empty, also when it was empty before. |
| Gate.PollOnTick | main.go:150-161 | A tick on a full slot does nothing; otherwise it runs exactly one non-forced cycle and gives the slot back. |
| Gate.TriggerHandler.ServeHTTP | pkg/handler/trigger_handler.go:76-118 | 409 exactly on a full slot; 202 exactly when a cycle was handed over with the parsed force flag; 500 otherwise, and then the slot is free again. |
| Gate.TriggerHandler.Background | pkg/handler/trigger_handler.go:94-100 | The handed-over body runs one cycle and gives back the slot. |
| Runs.FileAfterRun | pkg/watcher.go:110-129 | Over every run with crashes, panics, aborts, cancellations, save failures and file loss, the cursor on disk equals the fold (last identifier per repo) of the successful sends of the saved cycles since the last loss, and nothing else. |
| Runs.FileAfterUndisturbedRun | pkg/cursor.go:50-91 | If nobody else touches the file, every saved cycle counts, from the content found at the first start on. |
| Runs.EntryHasSend | pkg/watcher.go:210-222 | An identifier is in the file only as that of the last counted successful send for its repo, or because it was there when the file was last replaced. |
| Runs.RepeatNeedsForce | pkg/watcher.go:99-108 | A send that repeats the last identifier successfully sent for its repo, when the cycle of that earlier send was saved and not lost or is the same cycle, belongs to a forced cycle. |
| Runs.SkippedIffRemembered | pkg/watcher.go:200-208 | In every run, a cycle that stands before a repo with findings sends nothing if and only if it is not forced and remembers this very identifier: from the last successful send in a kept cycle or itself, or, without one, from the file as last lost. |
| Runs.OncePerCycle | pkg/watcher.go:200-222 | In a non-forced cycle that finds the same set each time it meets a repo, however often the repo is listed, at most one send for it succeeds and none is tried after that. |
| Runs.CorruptNeverWedges | pkg/cursor.go:59-67 | Whatever the file holds, and even when a corrupt file cannot be put aside, a cycle whose read works walks on, and one save makes the file valid with the complete new cursor. |
| Runs.FoldOrigin | pkg/watcher.go:219-222 | An entry of the fold is the identifier of the last counted send for the repo, and without one the entry of the base. |
| Runs.FoldHolds | pkg/watcher.go:219-222 | A counted send stays recorded until a counted send for the same repo carries another identifier. |
| History.RunKeeps | pkg/watcher.go:66-134 | The invariant behind the run theorems holds after every sequence of begins, steps, crashes, panics and file replacements. |
| History.EventKeeps | pkg/watcher.go:66-134 | Each single event keeps: file is a fold, the cycle's memory is a fold, sends are logged in cycle order, no non-forced cycle sends what its cursor records. |
| History.LoadKeeps | pkg/cursor.go:50-72 | Loading turns the file's history into the cycle's. |
| History.VisitKeeps | pkg/watcher.go:143-223 | One repo keeps the invariant, whatever its answers are. |
| History.RenameKeeps | pkg/cursor.go:86-90 | The rename turns the cycle's history into the file's. |
| Cycle.StepIsAtomic | pkg/cursor.go:77-91 | After every single step of a cycle, each byte of the temp file included, the file stands for the old cursor, or, after the rename alone, for the complete new one. |
| Cycle.StepsMakePoll | pkg/watcher.go:66-134 | The small steps, undisturbed, add up to the one-step cycle. |
| Cycle.FinishWrite | pkg/cursor.go:82-90 | Writing the temp file byte by byte and renaming it is one save, with every fault that save can meet. |
| Cycle.StepKeepsTmp | pkg/cursor.go:82-85 | While a cycle writes or renames, the temp file holds a prefix of its own encoded cursor, complete at the rename. |
| Watchers.Watcher.Poll | pkg/watcher.go:66-134 | The cycle on live objects does to disk, topic and counters exactly what the functional cycle says, on every path. |
| Watchers.Watcher.ListAndProcess | pkg/watcher.go:77-133 | From the listing on: abort labels, counters, the dedup filter only when not forced, walk and save. |
| Watchers.Watcher.ProcessRepos | pkg/watcher.go:136-225 | The loop over the repos, with cancellation, rate limit, drops and the aliasing filter, is the functional walk. |
| Watchers.Watcher.VisitRepo | pkg/watcher.go:161-223 | Filter chain, scan classification, dedup and publish of one repo on the live cursor. |
| Watchers.Watcher.EmitFinding | pkg/watcher.go:196-222 | Records the identifier only after a successful send; a skip or failure leaves the cursor alone. |
| Watchers.Watcher.SaveUnlessAborted | pkg/watcher.go:110-133 | An aborted walk does not save; a failed save counts as a scan error. |
| Watchers.FindingSetUnchangedFilter.Skip | pkg/filter/finding_set_unchanged_filter.go:23-31 | Skips exactly when the identifier is non-empty and equals what the live cursor records for the repo. |
| Watchers.TaskPublisher.PublishCreate | pkg/taskpublisher.go:44-67 | Appends one attempted send of the candidate's command, counts it by its outcome, and is true exactly for a successful send. |
| Laws.FailedSendIsRetried | pkg/watcher.go:210-222 | No finding set is lost: when no send for a repo succeeded in a non-forced cycle that tried it, the next non-forced cycle with the same findings tries again, whether or not the first was saved. |
| Laws.FailedSendsLeaveEntry | pkg/watcher.go:215-222 | A cycle without a successful send for a repo leaves that repo's entry in the file as it was; so does an `already_clean` one. |
| Laws.NewFindingIsSent | pkg/watcher.go:200-218 | A cycle that reaches a repo first with an identifier other than the recorded one attempts the publish. |
| Repeats.UnsavedSendRepeats | specs/completed/001-vuln-drift-watcher.md:81-114 | A finding set that the file did not hold and that one cycle sent as its last success for the repo is sent again by the next non-forced cycle that comes to it if and only if the first cycle did not count "success". |
| Repeats.EmittedTwice | specs/completed/001-vuln-drift-watcher.md:81 | A first cycle that sends for one repo and is then rate-limited, and a second, non-forced one: the same command is sent twice, successfully. |
| Repeats.FindingComesBack | pkg/watcher.go:200-222 | Findings A, B, A: with A in the file and B sent by one cycle, the next non-forced cycle that finds A sends it again if and only if the cycle of B was saved. |
| Repeats.NextCycleSends | pkg/watcher.go:110-222 | For any two cycles in a row, the first with a successful send for the repo, exactly when the second sends its finding set. |
| Repeats.SentIffNews | pkg/filter/finding_set_unchanged_filter.go:23-31 | A non-forced cycle sends a finding set exactly when the file does not record it. |
| Repeats.FileRecords | pkg/watcher.go:110-133 | After a cycle that sent for a repo the file records its last successful identifier if the cycle counted "success", and otherwise what it recorded before. |
| Laws.ForcedCycle | pkg/watcher.go:99-108 | Forced and non-forced cycle with the same answers leave the same disk and count the same result, whatever the extra sends return; the non-forced attempts are a subsequence of the forced ones. |
| Laws.WalkForced | pkg/watcher.go:136-225 | The same for the walks: equal cursors in memory, attempts a subsequence, equal endings. |
| Laws.EffectSendsOnce | pkg/watcher.go:200-222 | One repo causes at most one send; only a successful one writes, its own identifier under its own key; a non-forced one never repeats the recorded identifier. |
| Laws.FileChangesOnSuccessOnly | pkg/watcher.go:110-133 | The file changes what it stands for only in a cycle that counts "success", and then to that walk's complete cursor. |
| Laws.PollConserves | pkg/watcher.go:66-265 | One cycle adds one result; handled repos equal drops plus skips plus creates plus errors; detections, listings, sends and labels agree. |
| Endings.PollVerdict | pkg/watcher.go:66-134 | The exact label of every ending, in terms of the answers alone; a cancelled cycle that saves counts "success". |
| Answers.RateLimitExactly | pkg/watcher.go:110-119 | A cycle counts "rate_limited" if and only if the listing was limited, or a repo that is not cancelled had its go.mod or consent request limited and none before it was cancelled or limited; then nothing is saved. |
| Answers.SendsComeFrom | pkg/watcher.go:153-218 | Every send of every cycle comes from a visit the walk gets to, with go.mod, granted consent, allowlisted key and findings, and carries repo, commit and findings of that scan. |
| Answers.ForcedSendsExactly | pkg/watcher.go:99-218 | A forced cycle sends exactly for those visits, one for one and in order. |
| Answers.VisitSends | pkg/watcher.go:200-218 | One visit sends if and only if its answers call for it and the cycle is forced or the cursor records another identifier. |
| Answers.FateExactly | pkg/watcher.go:161-192 | Each of the nine fates of a repo, dropped, skipped under one of seven labels, or found, if and only if its condition on the answers holds. |
| Answers.FateOfGates | pkg/watcher.go:172-192 | From what clone and gates did to the label a scanned repo counts. |
| Endings.CancelSavesProgress | pkg/watcher.go:144-151 | A cancelled visit ends the walk whatever else is answered: disk, sends and result are those of a cycle whose listing ended before that repo. |
| Endings.RateLimitForgetsProgress | pkg/watcher.go:110-119 | A rate limit in mid-cycle sends what that shorter cycle sends, but leaves the file standing for what it stood for. |
| Endings.PollByFate | pkg/watcher.go:153-215 | Every handled repo counts under its own heading: drop, skip by reason, or finding; a finding is unchanged or one publish; a forced cycle calls nothing unchanged. |
| Endings.ScanLabels | pkg/watcher.go:228-237 | From what clone and gates did to the counted reason: each label if and only if its condition. |
| Endings.GatesTellApart | pkg/scanner.go:317-327 | A scan has timed out when a gate failed with the time used up, and has failed gates when any failed. |
| Endings.ScanCarries | pkg/scanner.go:332-343 | A scan that found something reports the commit and exactly the markers the combined output shows. |
| Endings.WalkVerdict | pkg/watcher.go:143-158 | The walk aborts exactly when a rate limit comes before any cancellation. |
| CursorStore.LoadCursor | pkg/cursor.go:50-72 | The load on the file system, step by step: missing, unreadable, corrupt put aside or not, valid. |
| CursorStore.SaveCursor | pkg/cursor.go:77-91 | The save on the file system: write fault, rename fault with clean-up, success. |
| CursorStore.LoadMeansFile | pkg/cursor.go:50-72 | A load fails only on an I/O fault, otherwise gives what the file stands for, and keeps a corrupt file whole when it moves it. |
| CursorStore.SaveThenLoad | pkg/cursor.go:74-91 | A successful save loads back as what was saved and leaves no temp file; a failed one leaves the old file; and which of the two happens. |
| CursorStore.LoadCases | pkg/cursor.go:50-72 | The four cases of a load, file by file: fault, missing, corrupt and moved aside if that works, valid. |
| CursorStore.SaveFaults | pkg/cursor.go:82-90 | What each fault of a save leaves behind: nothing, the first bytes, or the temp file if it could not be removed. |
| CursorStore.CursorReader.LastEmittedTaskIdentifier | pkg/cursorreader.go:18-27 | The live view reads an absent or nil entry as unseen, and sees every later update. |
| TaskId.SeedIdentifies | pkg/taskid.go:27-35 | For one owner two seeds are equal exactly when repo names and finding sets are, whatever dashes or marker-like text a repo name holds. |
| TaskId.SeedDecodes | pkg/taskid.go:27-35 | Across owners: exactly when owner, dash and repo spell the same text and the finding sets are equal. |
| TaskId.SeedSpelled | pkg/taskid.go:20-33 | The seed is the documented text over the one ascending list of the finding set. |
| TaskId.SeedOfTwo | pkg/taskid.go:27-49 | For a GO and a CVE identifier given out of order and twice: the CVE one first, once each, joined by a comma. |
| TaskId.SeedAmbiguousAcrossOwners | pkg/taskid.go:28-33 | Two owners and repos with the same seed. |
| TaskId.TaskIdIdentifies | pkg/taskid.go:27-35 | Without a hash collision the identifier identifies repo and finding set exactly. |
| TaskId.CanonicalVulnIDs | pkg/taskid.go:38-49 | The in-place, random-order computation equals the canonical form. |
| TaskId.ExtractedListIsHashedList | pkg/scanner.go:348-364 | An extracted list is a fixed point of canonicalisation, marker-shaped and free of duplicates. |
| TaskId.SplitAtList | pkg/taskid.go:28-33 | The dash before the joined list is the only one after which a marker list can start. |
| TaskId.JoinInjective | pkg/taskid.go:32 | A comma-joined list of markers reads back in one way. |
| StringOrder.CanonicalIsTheSet | pkg/taskid.go:37-49 | Canonical forms agree exactly when the sets do: independent of order and multiplicity. |
| StringOrder.LessMeans | pkg/taskid.go:47 | The order is the byte-wise one: the smaller byte at the first difference decides, and a proper prefix comes first. |
| StringOrder.AscendingIsCanonical | pkg/taskid.go:37-49 | Canonicalisation is the identity on ascending lists, hence idempotent. |
| Sorting.ListAscending | pkg/scanner.go:358-363 | Listing a set in any order and sorting gives its one ascending list. |
| Sorting.SortStrings | pkg/taskid.go:47 | In-place sort: ordered, and a permutation. |
| Markers.ExtractMarkers | pkg/scanner.go:348-364 | Exactly the strictly ascending list of the maximal markers of both families at any position, every CVE one before every GO one. |
| Markers.MarkerText | pkg/scanner.go:64-67 | A marker is "GO-" or "CVE-", a number, a dash and a number, spelled out in characters. |
| Markers.ContainsMeans | pkg/scanner.go:348-354 | A text contains a marker if and only if it is something, the marker, and something that does not go on with a digit. |
| Markers.CveIsSeen | pkg/scanner.go:64-67 | A CVE identifier between any two texts is seen. |
| Markers.FindAllIsComplete | pkg/scanner.go:64-67 | The greedy non-overlapping search finds a span if and only if a maximal marker stands there. |
| Markers.FindAllIsOrdered | pkg/scanner.go:351 | Matches come left to right without overlap. |
| Markers.NoStartInside | pkg/scanner.go:64-67 | No marker of a family can start inside another, which is why nothing is missed. |
| Markers.MatchIsOccurrence | pkg/scanner.go:65-66 | The greedy anchored match is the declarative maximal marker. |
| Scanner.CappedWriter.Write | pkg/scanner.go:239-250 | Appends the leading bytes that still fit, and reports the full length. |
| Scanner.RunGate | pkg/scanner.go:314-317 | Any sequence of writes appends exactly the first 4194304 bytes of their concatenation, all of it if it is no longer, and none is reported short. |
| Scanner.CappedMarkers | pkg/scanner.go:232-250 | A capped text shows a marker exactly when it is one of the full text that ends by the cap, or the part before the cap of one that runs across it. |
| Scanner.CapCanShorten | pkg/scanner.go:230-250 | A text one byte longer than the 4 MiB cap for which the capped text shows a marker that the text does not hold. |
| GateJoins.ByGateExactly | pkg/scanner.go:304-332 | The markers of the combined buffer are, place by place, those of the single outputs if and only if no marker runs across a join. |
| GateJoins.MarkersOfJoins | pkg/scanner.go:304-332 | For all outputs: the buffer shows exactly what some gate printed, less the markers a join continues everywhere, plus the ones read only across joins. |
| GateJoins.CleanJoinsNeutral | pkg/scanner.go:304-332 | Without a marker across a join the buffer holds exactly the union of the per-gate markers. |
| GateJoins.HarmlessExactly | pkg/scanner.go:304-332 | An output adds up with every possible next one if and only if no end of it could begin a marker. |
| GateJoins.OrderHarmlessExactly | pkg/scanner.go:304-332 | An output can change places with every harmless one if and only if it is harmless itself. |
| GateJoins.LineEndCloses | pkg/scanner.go:304-332 | An output that is empty or ends its last line is harmless. |
| GateJoins.MarkersOfGates | pkg/scanner.go:304-332 | With line-terminated outputs the buffer holds exactly the union of the per-gate markers. |
| GateJoins.GatesCanFuse | pkg/scanner.go:304-332 | Without line ends two outputs can form a marker neither holds, in one order only. |
| Scanner.Scan | pkg/scanner.go:252-344 | Which error or result a scan gives, for every clone and gate behaviour; markers win over failed gates, a timeout over everything after it. |
| GateJoins.GateOrderExactly | pkg/scanner.go:304-343 | Exactly when two orders of the gate targets give the same outcome: the scan ended earlier, or the joins make and spoil the same markers (without a commit to report: both buffers hold markers or neither, or a gate failed). |
| GateJoins.CleanOrdersAgree | pkg/scanner.go:304-343 | Reordering does not change the outcome when no marker runs across a join in either order. |
| GateJoins.ClosedOrdersAgree | pkg/scanner.go:304-343 | Nor when every captured output is harmless by itself. |
| GateJoins.GateOrderIsIrrelevant | pkg/scanner.go:304-343 | Nor, in particular, when every captured output is empty or ends its last line. |
| Domain.CommandDescribesOneSet | pkg/taskbuilder.go:40-74 | The payload list is the list that was hashed, the count is the size of the finding set, the identifier is the one dedup compares, and the command names the repo of the cursor key at the scanned commit. |
| Domain.SkipReason | pkg/filter/filter.go:63-70 | The first non-empty reason in list order, or none. |
| Domain.StaticChain | pkg/factory/factory.go:99-105 | The frozen chain decides scope before consent before go.mod. |
| GitHubClient.ListRepos | pkg/githubclient.go:154-191 | Ends within 100 requests for every next-page function; a failing request fails the listing; a cancellation found before a request fails it at that request; otherwise the result is everything in scope on exactly the pages asked for. |
| GitHubClient.MapGitHubRepos | pkg/githubclient.go:123-150 | The loop keeps exactly the repos in scope, in order. |
| GitHubClient.MappedConcat | pkg/githubclient.go:123-150 | Mapping distributes over page concatenation. |
| GitHubClient.MappedOne | pkg/githubclient.go:126-147 | What becomes of one listed repo, told by its fields: a nil, archived, foreign, nameless or oddly named one is left out, any other projected. |
| GitHubClient.MappedMembers | pkg/githubclient.go:119-150 | A repo is returned exactly when some listed repo becomes it; in particular no archived one is. |
| GitHubClient.WholeListing | pkg/githubclient.go:159-179 | Up to 100 pages that link each to the next are all asked for, once each and in order, and nothing on them is lost. |
| GitHubClient.EndlessListing | pkg/githubclient.go:30-32 | Links that never end, for example in a circle, end the listing after exactly 100 requests. |
| GitHubClient.KeyDecodes | pkg/repo.go:23-25 | Keys of repos with valid owners agree exactly when owner and name do. |
| GitHubClient.KeysOfListing | pkg/githubclient.go:34-37 | Every returned owner and name is in the character set, and the key is injective on returned names. |
| GitHubClient.DedupComparesSets | pkg/filter/finding_set_unchanged_filter.go:23-31 | For repos of one listing, a non-forced cycle skips exactly when the recorded and the new finding set are the same set. |
| Body.LogNon2xxResponse | pkg/non2xx_log.go:45-63 | A 2xx response is untouched; any other has the snippet of its first 4096 bytes logged and is left with a body that still delivers every original byte and the original ending, wherever it falls, and closes the original. |
| Body.ReadAllLimited | pkg/non2xx_log.go:52 | The peek is exactly the first bytes for every chunking and every growth of the buffer; a fault is reported only when it lies within the peek. |
| Body.PeekedBody.Read | pkg/non2xx_log.go:57-79 | One read with any buffer delivers the next bytes, and an ending only at the end. |
| Body.ReadInPieces | pkg/non2xx_log.go:57-60 | Any sequence of buffer sizes delivers a prefix of the body, and the ending only after all of it; with enough reads that leave room for a byte it is reached. |
| Body.ReadToEnd | pkg/non2xx_log.go:57-60 | A reader that keeps on, with buffers of any positive sizes, gets exactly the whole body and its ending. |
| SnippetProofs.SnippetIsOneLine | pkg/non2xx_log.go:113-128 | The snippet's only white space is single blanks, it has one to 201 characters, all well-formed (section 4 of RFC 3629). |
| SnippetText.SnippetHasNoBreaks | pkg/non2xx_log.go:113-116 | By byte and code point: no byte of the snippet is a tab, line feed or other control white space, and no character is white space of Unicode but the plain blank. |
| SnippetText.SnippetOfWords | pkg/non2xx_log.go:115-128 | For every body, read as words and gaps: the words in order with one 0x20 between, invalid bytes mended; beyond 200 characters the first 200 and an ellipsis; "absent" without a word. |
| SnippetText.SnippetOfText | pkg/non2xx_log.go:115-124 | For well-formed text of at most 200 characters after collapsing: the words as they are, one 0x20 between. |
| SnippetText.GapIsBlank | pkg/non2xx_log.go:116 | Any single white-space character between two others is shown as 0x20. |
| SnippetText.RepairRun | pkg/non2xx_log.go:120-122 | A run of invalid bytes inside a word becomes one question mark. |
| SnippetText.SpaceExactly | pkg/non2xx_log.go:116 | White space is exactly the 25 code points Unicode numbers so. |
| SnippetText.WholeExactly | pkg/non2xx_log.go:120-126 | The decoder's byte tables (section 4 of RFC 3629) accept exactly the encodings of code points (section 3 of RFC 3629). |
| SnippetText.CharacterFirst | pkg/non2xx_log.go:126 | Decoding takes a character where one stands. |
| SnippetText.NoCharacterFirst | pkg/non2xx_log.go:120-122 | Where no character stands decoding takes one byte, and a bad one. |
| SnippetProofs.CollapsedUnits | pkg/non2xx_log.go:116-122 | Split, join and repair on bytes decode to one left-to-right pass over the body's characters. |
| PeekCut.PeekShowsBody | pkg/non2xx_log.go:32-34 | When the peek collapses to more than 200 characters its snippet is the body's, if and only if the cut is not inside trailing white space that the limit depends on. |
| PeekCut.PeekCanMislead | pkg/non2xx_log.go:32-34 | A 4098-byte body for which the two snippets differ. |
| PeekCut.UnitsOfPrefix | pkg/non2xx_log.go:120-122 | A prefix decodes to the characters that fit and, exactly when a character is cut (section 3 of RFC 3629), invalid bytes. |

## Left out

- Process execution, `git`, `make`, process-group kill, wall-clock timeouts, the clone directory and its removal: an oracle gives exit status, written chunks and "context done".
- HTTP, Kafka, Prometheus, Sentry, go-github, the router, the factories, health and log-level handlers: no branching of their own.
- Bytes of JSON and YAML: the cursor codec is an inverse pair with a corrupt outcome; a failing marshal is not modelled. A nil `repos` map and an empty one are the same.
- SHA-1 and the UUID layout: an abstract function of the seed.
- `ParseGateTargets` and `ParseRepoAllowlist`, and the allowlist, consent and go.mod predicates on their own: easy members; they enter as a list of gates and as oracle answers inside the filter chain. `repoallowlist.IsAllowed` is not part of this model.
- `GetGoMod` and `GetMaintainerConfig`: their outcomes are oracle answers per repo. `pkg/auth`, the credential environment and `pkg/mathutil` are wrappers or trivial.
- `non2xxLine`, task title and task body, and most front-matter keys: plain formatting.
- Watchers.Watcher.Poll: always returns nil, so the callers' error branches are not modelled; the answer about one repo is one record, also for calls that the code does not reach.
- Cycle.StepIsAtomic: the effects of one repo are one step, because its only lasting effect is a single send; the rename is one step.
- Service.SlotAfterRun: a panic in the interval loop releases the slot and is followed by a crash or by nothing; the model lets the loop go on as well, which only adds runs.
- GitHubClient.ListRepos: a listing cut off after 100 pages looks like a complete one, as in the code; the private count is log output only.
- Body.PeekedBody.Read: `Close` is only the reference to the original body.
- Slices that a function fills locally (`raw`, `result`, `out`) are `seq` values reassigned in loops; only the sorted slice is an array.
