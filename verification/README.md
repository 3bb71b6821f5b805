# Verified model of the aitra-server cores

A model hub keeps repositories, spaces, prompts and model files, mirrors other hubs and
meters the energy of inference. Most of its code moves rows between stores. This project
models the parts that compute or coordinate something and proves what they are for.

| file | what it models |
|---|---|
| `Text`, `FrontMatter`, `StoredReadme` | reading and rewriting the YAML front matter of a README, by splitting on `---`, and its way through base64 |
| `Base64` | the base64 of section 4 of RFC 4648 and the cleaning of committed file content |
| `Keyset`, `FanOut` | paging through repositories by id, and the token-bounded goroutines started for them |
| `RepoFiles` | recording the files of one repository, with faults |
| `PromptFan` | the workers, the channel and the collector that list prompts |
| `MultiSync`, `SyncClient`, `SyncRefinement`, `SyncGaps`, `SyncGapRuns`, `SyncBuilds` | pulling another hub's version log and replaying it, interrupted anywhere; one call as a program, that call as a run of the machine, which calls lose a version, and what a call builds |
| `Sums`, `RealAlgebra`, `Variation`, `Tracker`, `ClusterEnergy` | the energy meter: rolling buffer, coefficient of variation, energy per token, carbon and cost |
| `TreeCursor` | the file tree served in pages with an offset cursor, and the client that walks it |
| `SpaceIndex` | the space listing filtered by status |
| `Multipart`, `LfsLocks`, `LfsObjects` | Git LFS: multipart plans, locks, objects and their metadata rows |
| `RuntimeFrames` | runtime frameworks grouped by name, vllm moved to the front in place |
| `RecomScores`, `RecomBatches` | recommendation totals recomputed from their parts, for one repository and for all of them in batches |
| `HashMigration` | moving repositories to hashed paths in batches |
| `MirrorBatch` | splitting a batch of mirror requests into updates and creations |
| `Wrappers`, `Counting`, `Division` | shared definitions |

## How it is modelled

Concurrent code (`FanOut`, `PromptFan`, `LfsLocks`, `LfsObjects`, `MultiSync`) is a state
machine whose steps are the operations that can interleave; theorems quantify over every
run, that is every sequence of enabled steps. Sequential code that updates objects is a
class or a method with loops, proved equal to a specification function; theorems are then
proved about that function. Stores, git servers and clocks are sequences, maps and inputs.
A store fault is an input too: a function says which call fails, and the theorems hold for
every such function.

Go strings are sequences of characters, bytes where base64 needs them. `float64` is `real`
and `math.Sqrt` a value with its defining property. The `uint64` sum of tokens wraps, as in
Go; other counters are unbounded.

## Where the code falls short

The model follows the code. Each of these is stated with the exact condition.

- The README writer keeps the text outside the old metadata exactly when the README has no
  `---` or two of them (`FrontMatter.BodyKeptIff`): with one, it and all the text behind it
  are lost (`FrontMatter.OneSeparatorLosesTail`); with more, every `---` after the second is
  erased. The YAML text is read back exactly when it holds no `---` (`FrontMatter.ReadBackIff`).
- The file-record fan-out deadlocks exactly when it has no tokens and something to do
  (`FanOut.DeadlockIff`); tokens bound the working goroutines but not the live ones
  (`FanOut.GoroutineOutlivesToken`).
- Listing prompts crashes on a nil result exactly when some eligible file does not parse
  (`PromptFan.OutcomeIff`).
- A sync call leaves a gap in the log exactly when a received version could not be stored and
  a later one could (`SyncGaps.GapMadeIff`, with an input in `SyncGaps.FirstVersionLost`);
  the version is then lost for ever, because the cursor is the latest stored version
  (`MultiSync.LostForever`, `SyncClient.GapIff`). Over any run with calls, faults, stops and a
  growing server the condition is the same, call by call (`SyncGapRuns.RunGapIff`).
- A missing response ends a tree walk silently (`TreeCursor.GetAllFiles`, `RepoFiles.RecordedKeys`),
  and a walk over the remote tree with limit 0 may never end (`TreeCursor.RemoteWalkEndsIff`).
- Filtered space pages overlap (`SpaceIndex.PagesOverlapIff`, with an input in
  `SpaceIndex.OverlapInput`). The unfiltered total is right
  for the table the listing was joined with; it exceeds the spaces shown exactly when a listed
  space is gone before the second query reads it (`SpaceIndex.UnfilteredTotalIff`,
  `SpaceIndex.DeletedSpaceCounted`).
- A refused lock need not be held by anyone: every refusal is truthful exactly when no insert
  fails for a path that is free (`LfsLocks.FalseRefusalIff`, with a run in
  `LfsLocks.FalseRefusalRun`). An unlock can remove a lock of a repository it does not name
  (`LfsLocks.ForeignUnlockRun`, `LfsLocks.RemovedFromNamedIff`).
- All uploads of one oid share a temporary key, so a checked upload can copy what another put
  there after the check; uploads to migrated repositories, multipart completions and bodies
  put through a signed upload link are not checked by the server at all. Stored objects are what their oid says exactly when no such request sends a
  wrong body and no oid of the shared store is sent both with a body that passes the check
  and with a wrong one (`LfsObjects.ConsistentIff`; run by run, `LfsObjects.GenuineIff`).
  Metadata rows keep the size of their object exactly when no key can receive bodies of
  different lengths (`LfsObjects.RowsIff`); every kind of repository has a run that breaks
  one (`LfsObjects.SharedUploadBreaksRow`, `LfsObjects.MigratedUploadBreaksRow`).
- The cluster's energy per token is wrong when the token sum wraps (`ClusterEnergy.ClusterIsRatioIff`).
- Listing runtime frameworks panics exactly when an accepted frame's image has no tag, or the
  driver check meets a GPU frame while the configured system version or the frame's driver
  version is not a version (`RuntimeFrames.ListRuntimeFrameworkV2`, with an input in
  `RuntimeFrames.DriverTextPanics`).
- A mirror request with repeated new URLs creates repeated mirrors (`MirrorBatch.OneMirrorIff`),
  and they may disagree (`MirrorBatch.LastEntryCarriedIff`).
- A failed path migration is not retried from the returned cursor (`HashMigration.NothingAboveMax`).

## Model

| member | source | states |
|---|---|---|
| Text.JoinSplit | component/prompt.go:453 | splitting a text loses nothing: joining the pieces with the separator gives it back |
| Text.SplitPieces | component/prompt.go:453 | splits are leftmost: no piece holds the separator, and none but the last makes one together with the separator after it |
| FrontMatter.GetOutputForReadme | component/prompt.go:468-485 | the written text for 0, 1 or more pieces, and that the caller's slice has its second piece overwritten |
| FrontMatter.ReadBack | component/prompt.go:453-485 | for any README and YAML without a separator, re-reading what was written gives exactly three pieces, the middle one the YAML just written |
| FrontMatter.ReadBackIff | component/repo.go:2824-2831 | metaText returns the written YAML block if and only if the YAML holds no separator |
| FrontMatter.MetaRoundTrip | component/prompt.go:441-485 | with a YAML library that parses its own output, reading a rewritten README returns the metadata written |
| FrontMatter.LastWriteWins | component/prompt.go:468-485 | a second write over a first equals the second write alone |
| FrontMatter.RewriteIdempotent | component/prompt.go:468-485 | writing the same metadata again changes nothing |
| FrontMatter.OutsideWritten | component/prompt.go:476-484 | what a write leaves outside its block, for one, two, three and more pieces of the README |
| FrontMatter.BodyKeptIff | component/prompt.go:476-484 | the text outside the old metadata is kept character for character, behind one newline if there was no separator, if and only if the README splits into one piece or three; with two the separator and the text behind it are lost, with more exactly the separators past the second |
| FrontMatter.OneSeparatorLosesTail | component/prompt.go:480-483 | a README with one separator keeps only what stands before it |
| FrontMatter.WrittenTexts | component/prompt.go:468-485 | a README without front matter is written behind the new block, spelled out |
| FrontMatter.WrittenOver | component/prompt.go:453-485 | in a README that has a block, the new one takes its place and the body stays |
| FrontMatter.ReadParses | component/prompt.go:453-466 | the text between the separators is what is parsed; with one separator the text behind it, without one nothing is |
| StoredReadme.StoredRoundTrip | component/prompt.go:429-466 | for any stored content that decodes, what is written over it in base64 is read back as the metadata written and the three new pieces |
| StoredReadme.ReadFailsIff | component/prompt.go:441-466 | reading fails if and only if the content does not decode, or there is a separator and the text behind the first does not parse |
| Base64.SanitizeBase64 | component/repo.go:2703-2715 | the loop keeps exactly the alphabet characters and padding, in order |
| Base64.CleanBase64 | component/repo.go:2717-2725 | the result is the input's alphabet characters padded to whole quanta |
| Base64.CleanedRestores | component/repo.go:2589-2597 | content with the alphabet characters of an encoding, whatever its padding and noise, is cleaned to the canonical encoding and decodes to the bytes |
| Base64.NoiseIgnored | component/repo.go:2703-2715 | characters outside the alphabet inserted anywhere make no difference |
| Base64.CleanedIdempotent | component/repo.go:2717-2725 | for every input, cleaning twice is cleaning once, and the length is a multiple of 4 |
| Base64.CleanedDecodesIff | component/repo.go:2589-2597 | cleaned content decodes if and only if its alphabet characters do not leave one over |
| Base64.DecodeEncode | component/repo.go:2589-2597 | decoding an encoding of any bytes gives the bytes |
| Base64.Table | component/repo.go:2703-2712 | the alphabet: A to Z, a to z, the digits, + and /, in the order of RFC 4648 |
| Base64.QuantumBits | component/repo.go:2589-2597 | four characters spell the 24 bits of three bytes, most significant first |
| Base64.KnownEncodings | component/repo.go:2589-2597 | encodings of section 10 of RFC 4648 |
| Base64.DecodesIff | component/repo.go:2589-2597 | content decodes if and only if, line breaks aside, it is whole quanta of the alphabet with padding at the very end only |
| Base64.BreaksIgnored | component/repo.go:2589-2597 | line breaks are skipped wherever they stand |
| Keyset.AboveNext | builder/store/database/repository.go:1229-1256 | moving the cursor to a returned row leaves exactly the rows behind it |
| Keyset.PageThenRest | builder/store/database/repository.go:1229-1256 | a page followed by what lies above its last id is everything above the cursor, and a short page is the last |
| Keyset.BatchGetIsPage | builder/store/database/repository.go:1229-1256 | with positive ids, omitting the condition for a cursor of 0 makes no difference |
| FanOut.EveryRunKeepsInv | component/repo_file.go:48-93 | the invariant of the fan-out holds in every state of every interleaving |
| FanOut.TokensConserved | component/repo_file.go:52-88 | free and held tokens always sum to the concurrency, and returning one never blocks |
| FanOut.FinishedHandledAll | component/repo_file.go:48-93 | a finished run started every repository above the start exactly once, in order, and all its goroutines are done |
| FanOut.TargetsAre | builder/store/database/repository.go:1229-1256 | the repositories to handle are those above the start, in ascending order |
| FanOut.FetchOfTen | component/repo_file.go:57-68 | a fetch brings the next ten of them, or all that are left |
| FanOut.Progress | component/repo_file.go:48-93 | with at least one token, every invariant state that is not terminal can step |
| FanOut.DeadlockIff | component/repo_file.go:48-93 | a deadlock is reachable if and only if there are no tokens and some repository to handle |
| FanOut.RunsAreFinite | component/repo_file.go:48-93 | every run is bounded by ten steps per repository and four more |
| FanOut.FailedIff | component/repo_file.go:62-67 | the call fails if and only if a fetch failed |
| FanOut.MaximalRun | component/repo_file.go:48-93 | a run that cannot go on has returned with no goroutine alive, and has handled all repositories unless a fetch failed |
| FanOut.GoroutineOutlivesToken | component/repo_file.go:72-85 | with one token two goroutines can be alive, since the token goes back before wg.Done |
| RepoFiles.Store.CreateRepoFileRecords | component/repo_file.go:95-165 | the paged loops, with every fault, compute the specified rows and outcome |
| RepoFiles.RunGrows | component/repo_file.go:124-159 | whatever fails: old rows stay in place, no key is recorded twice, and every new row is the row of a listed file |
| RepoFiles.NewRowsHold | component/repo_file.go:124-159 | whatever fails: every new row has the id and branch of the repository, and path, type, size and commit of one listed file that is no directory |
| RepoFiles.EveryFileHasRow | component/repo_file.go:129-152 | after a run without faults every listed file has a row with its own path and commit on this branch, whatever other branches, repositories and commits have |
| RepoFiles.FailsIff | component/repo_file.go:95-165 | when no insert fails, a call fails if and only if the first answer that is not a page is an error; failed existence checks and a missing answer do not fail it |
| RepoFiles.InsertFails | component/repo_file.go:153-157 | a failing insert of a file that has no row fails the call |
| RepoFiles.RecordedKeys | component/repo_file.go:95-165 | a run that reports success has recorded what was there and exactly what it could check; failed checks and a missing response drop files silently |
| RepoFiles.InterruptedThenComplete | component/repo_file.go:95-165 | after any interrupted run, a run without faults leaves every file recorded, with as many rows as one run would |
| RepoFiles.RerunChangesNothing | component/repo_file.go:140-152 | when every listed file is recorded, another run changes nothing, whatever fails |
| PromptFan.EveryRunKeepsInv | component/prompt.go:136-181 | the invariant of workers, channel and collector holds in every interleaving |
| PromptFan.SendNeverBlocks | component/prompt.go:136-166 | in every reachable state a worker that has parsed can send: the channel is open and has room |
| PromptFan.ReturnedComplete | component/prompt.go:136-181 | a returned list holds exactly one entry per eligible file and the collector has ended |
| PromptFan.CrashedNeedsFailure | component/prompt.go:167-172 | the collector crashes only if some eligible file failed to parse |
| PromptFan.Progress | component/prompt.go:136-181 | every invariant state that is not final can step: no deadlock |
| PromptFan.RunsAreFinite | component/prompt.go:136-181 | every run is bounded by five steps per file and four more |
| PromptFan.OutcomeIff | component/prompt.go:136-181 | whatever the schedule, the call returns if and only if every eligible file parses, and crashes otherwise |
| PromptFan.NothingAfterCrash | component/prompt.go:167-172 | after a crash no step is possible, so no list is returned |
| PromptFan.EligibleIff | component/prompt.go:150-157 | a file is eligible if and only if it is not in LFS, not too large, and ends in .jsonl in upper or lower case |
| PromptFan.AllOneMore | component/prompt.go:150-166 | one result is awaited for each eligible file, in listing order, and for no other |
| MultiSync.WorkListIs | builder/store/database/multi_sync.go:78-90 | the work list is the newest incomplete entry of each repository, once each |
| MultiSync.EveryRunKeepsInv | component/multi_sync.go:89-268 | over any run, with faults, stops and a growing server, the local log is an ascending part of the server's and what is complete is built |
| MultiSync.CompletedIsBuilt | component/multi_sync.go:124-268 | an entry marked complete has its repository and type row |
| MultiSync.LostForever | component/multi_sync.go:91-119 | a version skipped while a later one was stored is never stored by any later run |
| MultiSync.GapStays | component/multi_sync.go:91-119 | a log with a gap never equals the server's again |
| MultiSync.GaplessIsPrefix | component/multi_sync.go:91-119 | a log without a gap is the server's log up to the latest stored version |
| SyncClient.Client.Pull | component/multi_sync.go:89-119 | the pages received, the entries stored, and the error, for any failing calls and creates |
| SyncClient.ReceivedIsAbove | component/multi_sync.go:96-119 | what is received is all that lies above the cursor, or a first part of it after a failed call |
| SyncClient.FaultFreePull | component/multi_sync.go:89-119 | without faults and gaps, pulling makes the local log equal to the server's |
| SyncClient.Client.Replay | component/multi_sync.go:124-268 | the replay loop applied to every entry of the work list, whatever fails |
| SyncClient.FaultFreeReplay | component/multi_sync.go:120-268 | an uninterrupted, fault-free replay leaves no entry of a supported type incomplete |
| SyncClient.Client.SyncAsClient | component/multi_sync.go:89-268 | one whole call with every failing query, page, insert and replay step: when it reports success; the log stays an ascending part of the server's, complete means built, and without faults and gaps the logs are equal and all supported entries complete |
| SyncClient.GapIff | component/multi_sync.go:89-119 | the local log can still become the server's if and only if it has no gap |
| SyncGaps.GapMadeIff | component/multi_sync.go:91-119 | a call that starts without a gap leaves none if and only if no received version failed to be stored before a later one that was |
| SyncGaps.FirstVersionLost | component/multi_sync.go:108-119 | a client without a log loses version 1 when only its insert fails |
| SyncGapRuns.RunGapIff | component/multi_sync.go:89-119 | from a gapless log between calls: after any run, with the server growing and faults and stops anywhere, the log has no gap if and only if no call stored a version after failing to store one |
| SyncRefinement.CallIsRun | component/multi_sync.go:89-268 | a call, whatever fails in it, is a run of the machine, so the theorems on runs hold of calls |
| SyncBuilds.LocalPath | common/utils/common/sync_version.go:10-27 | the path of an entry is CSG_ and its path for source 0, HF_ and its path for source 1, its path for any other |
| SyncBuilds.SourcesApart | component/multi_sync.go:270-273 | entries of one path from the two sources never share a repository |
| SyncBuilds.ReplayStages | component/multi_sync.go:124-268 | what is built and what is marked, for each failure of a replay |
| SyncBuilds.ReplayMarks | component/multi_sync.go:124-268 | a replayed entry marks the entries of its source, path and type up to its version, and no other |
| SyncBuilds.CallBuilds | component/multi_sync.go:89-268 | a call without faults adds a repository and a type row at the source's path for every supported entry of its work list, and nothing else |
| SyncBuilds.ServerIsBuilt | component/multi_sync.go:89-268 | after such a call from a gapless log every supported entry of the server has its repository and type row, paths written out |
| SyncBuilds.PageOfHundred | builder/store/database/multi_sync.go:43-50 | a page is the next hundred versions, or all that are left |
| Variation.CVUnique | energy/derive.go:116-136 | there is one coefficient of variation of a window |
| Variation.CVIffSums | energy/derive.go:116-136 | the coefficient is determined by the sum and the sum of squares |
| Variation.CVBounds | energy/derive.go:116-136 | for non-negative samples CV >= 0, and for two or more CV² <= n - 1, with equality if and only if one sample carries a sum that is not zero |
| Variation.CVZeroIff | energy/derive.go:116-136 | CV is 0 if and only if there are fewer than two samples, their mean is zero or they are all equal |
| Variation.CVPermuted | energy/derive.go:116-136 | CV does not depend on the order of the samples |
| Variation.CVScaled | energy/derive.go:116-136 | scaling by a positive factor keeps CV, by a negative one turns its sign |
| Tracker.CVTracker.constructor | energy/derive.go:92-97 | a new tracker is empty, and a size that is not positive becomes 100 |
| Tracker.CVTracker.Add | energy/derive.go:100-108 | the window afterwards is the last size samples of the old window and the new one |
| Tracker.CVTracker.CV | energy/derive.go:116-136 | the loops return the coefficient of variation of the sliding window |
| Tracker.AddWindow | energy/derive.go:100-108 | adding keeps the ring valid and drops the oldest sample only from a full window |
| Tracker.AddsWindow | energy/derive.go:100-108 | after any adds the ring is a rotation of the last size samples, and full exactly when one was dropped |
| Tracker.NewRingAdds | energy/derive.go:91-108 | the same from a new tracker: full if and only if there were more adds than the size |
| Tracker.CVOfWindow | energy/derive.go:116-136 | the coefficient of the buffer as it lies in memory is that of the window in order |
| Tracker.CVForgetsThePast | energy/derive.go:91-136 | series with the same latest samples have the same coefficient |
| ClusterEnergy.ComputeRecord | energy/derive.go:167-208 | exactly which windows are refused and why; an accepted record has energy = J/token times tokens, the window's attribution, its tier or uncalibrated, its workload or unknown, and is stable if and only if CV is below the threshold |
| ClusterEnergy.ClusterJPerToken | energy/derive.go:39-50 | the loop with its wrapping counter computes the cluster value |
| ClusterEnergy.ClusterIsRatioIff | energy/derive.go:39-50 | it is total energy over total tokens if and only if the counter did not wrap or there is no energy |
| ClusterEnergy.RatioIsWeightedMean | energy/derive.go:34-50 | that ratio is the token-weighted mean of the records' J/token |
| ClusterEnergy.RatioBetween | energy/derive.go:34-50 | it lies between the smallest and the largest record value |
| ClusterEnergy.RatioOfSplit | energy/derive.go:34-50 | for any split it lies between the values of the parts |
| ClusterEnergy.ClusterPermuted | energy/derive.go:39-50 | it does not depend on the order of the records |
| ClusterEnergy.ArithmeticMeanIff | energy/derive.go:34-50 | averaging two records' values is right if and only if they agree in tokens or in value |
| ClusterEnergy.ClusterConserves | energy/derive.go:53-73 | tokens times carbon or cost per token is kWh times PUE times rate on the total energy |
| ClusterEnergy.KnownFigures | energy/derive.go:53-73 | 3.6 million joules are 1 kWh; at 3.6 J per token a million tokens cost what 1 kWh does, at 3.6 million one token emits what 1 kWh does |
| ClusterEnergy.RecordsConserve | energy/derive.go:53-73 | the records' carbon adds up to the carbon of their total energy |
| TreeCursor.CursorRoundTrip | component/repo.go:1228-1284 | decoding an encoded offset gives the offset, and no cursor looks like the end |
| TreeCursor.CursorsValid | component/repo.go:1228-1284 | the cursors in use form a valid codec |
| TreeCursor.GetAllFiles | component/mirror.go:331-372 | client against server: with faults, the files of the answered pages; without, what NonDirs leaves of the whole listing, after one call more than there are full pages |
| TreeCursor.NonDirsAre | component/mirror.go:358-363 | the entries kept are the listed ones that are no directories, each as often as listed |
| TreeCursor.NonDirsKeep | component/mirror.go:358-363 | a listing without directories is returned as it is |
| TreeCursor.NonDirsBetween | component/mirror.go:358-363 | directories are left out without moving what stands around them |
| TreeCursor.WalkedListing | component/mirror.go:331-372 | a walk that read all pages returns every non-directory of the listing as often as listed, and nothing else |
| TreeCursor.Limits | component/repo.go:1228-1232 | no limit is 500, and no page is longer than 10000 |
| TreeCursor.KnownCursor | component/repo.go:1275-1279 | the cursor of offset 500 is the base64 of its decimal text |
| TreeCursor.UnreadableStartsOver | component/repo.go:1242-1248 | a cursor that is not base64 gets the first page |
| TreeCursor.RemoteWalkEndsIff | component/repo.go:2325-2368 | a walk over RemoteTree ends if and only if its limit is positive or the database answers limit 0 with some row |
| SpaceIndex.ConvertReposToSpaces | component/space.go:640-715 | the nested loops are the order-keeping join of repositories and spaces |
| SpaceIndex.FoundAre | component/space.go:563-597 | what is found are the spaces with the status among those of the repositories gone through |
| SpaceIndex.FillPage | component/space.go:563-597 | succeeds if and only if every query the loop reaches does; then it returns the first per matches of the window of 100 raw pages from the raw offset |
| SpaceIndex.WindowOfHundred | component/space.go:563-597 | with pages of one, a first match among the first hundred rows is shown, and one behind them is not |
| SpaceIndex.CountMatches | component/space.go:609-637 | the batches of 100 count the matches of the listing up to the first failing batch |
| SpaceIndex.FullCount | component/space.go:609-637 | without a failing batch the count is the number of matches of the whole listing |
| SpaceIndex.CountOfHundreds | component/space.go:613-635 | when the second batch fails, the count is that of the first hundred rows |
| SpaceIndex.Index | component/space.go:537-638 | both branches with every failing query: exactly when the call fails; with a status the filtered page, and the count or the page length as total; without one the joined raw page, or the whole listing for a size of 0, and the number of repositories |
| SpaceIndex.UnfilteredTotalIff | builder/store/database/repository.go:660-683 | the listing joins spaces, so its total is the number of spaces; it is that of the spaces shown if and only if none is gone when they are read |
| SpaceIndex.DeletedSpaceCounted | component/space.go:543-561 | a listed space that is then deleted is counted in the total and not shown |
| SpaceIndex.NoMatchMissed | component/space.go:563-597 | for a page size above 0 every match of a raw page is shown on the filtered page of that number; for 0 nothing is |
| SpaceIndex.PagesOverlapIff | component/space.go:563-597 | two pages in a row share a space if and only if the raw page does not fill its page and a later one of its window has a match |
| SpaceIndex.OverlapInput | component/space.go:563-597 | with two repositories of which the second matches, both pages of size 1 show its space |
| Multipart.CalculatePartSize | component/git_http.go:920-930 | the chosen size is the least that respects the minimum and with which 1000 parts hold the file |
| Multipart.CutWhole | component/git_http.go:804-829 | parts sum to the size, all but the last have the chunk's length, the last is not empty |
| Multipart.CutCount | component/git_http.go:804-829 | there are at most k parts if and only if k chunks hold the file |
| Multipart.ChunkIsLeast | component/git_http.go:920-930 | the chunks with at most 1000 parts that respect the minimum are the chosen one and the larger ones |
| Multipart.BuildMultipartUploadLink | component/git_http.go:804-829 | succeeds if and only if every part 1..n of the cut can be signed, n at most 1000; then the header has one link for each and the chunk size, depending on the size only |
| Multipart.HeaderHolds | component/git_http.go:811-826 | the header has the chunk size under chunk_size, each part's link under the text of its number, and no other key |
| Multipart.AddPart | component/git_http.go:811-826 | part numbers have distinct keys, none of them the chunk key |
| LfsLocks.EveryRunKeepsInv | component/git_http.go:512-659 | the invariant of locks and requests holds in every interleaving of CreateLock and UnLock, with faults |
| LfsLocks.OneLockAPath | component/git_http.go:512-659 | in every run from an empty table a path has at most one lock |
| LfsLocks.UnlockAnswer | component/git_http.go:642-656 | from any invariant state: with no row an unlock ends as not found; it is forbidden if and only if it is not forced and the row is another user's; otherwise the removal follows, ends as removed and leaves exactly the other rows |
| LfsLocks.UnlockAnsweredTruly | component/git_http.go:642-659 | no step tells an unlock not found, forbidden or removed unless that is so at that moment, and a store fault is told as none of them |
| LfsLocks.AnswersHold | component/git_http.go:512-659 | over any run a lock that was granted is the row of its id for as long as that id has one, a lock reported as removed never comes back, and no forced unlock was forbidden |
| LfsLocks.ForcedUnlockRun | component/git_http.go:650-656 | a run from the empty table in which a forced unlock of one user removes the lock of another |
| LfsLocks.UnforcedRemovesOwn | component/git_http.go:617-659 | however late it comes, an unforced removal takes away at most the caller's own row |
| LfsLocks.OneWinner | component/git_http.go:512-554 | of the requests racing for a free path exactly one gets the lock and all others are told it exists |
| LfsLocks.FalseRefusalIff | component/git_http.go:534-554 | over any run, every request told that the lock exists was told so while its path was held, if and only if no insert failed for a path that was free |
| LfsLocks.FalseRefusalRun | component/git_http.go:541-547 | a run from an empty table in which the only request is told that the lock exists and no lock was ever created |
| LfsLocks.RemovedFromNamedIff | component/git_http.go:642-659 | a row removed however late belongs to the repository the request named if and only if the row found at the check did |
| LfsLocks.ForeignUnlockRun | component/git_http.go:642-659 | a run in which an unlock naming one repository removes the lock of another |
| LfsLocks.VerifyLock | component/git_http.go:661-717 | ours and theirs are the owner filters of the listing, in order |
| LfsLocks.OwnedSplits | component/git_http.go:661-717 | every lock is listed once, on its owner's side |
| LfsLocks.OwnedInOrder | component/git_http.go:661-717 | each side is in the order of the listing |
| LfsObjects.GenuineIff | builder/store/s3/minio.go:90-150 | of any run: every object is always what its oid says if and only if every unchecked body was right and every copy from the temporary key found its own body or nothing |
| LfsObjects.StepKeeps | builder/store/s3/minio.go:90-150 | every faithful step keeps objects genuine, rows at the size of their object, and stored objects unchanged |
| LfsObjects.RunKeeps | component/git_http.go:418-510 | the same over any such run, with put, check, copy and removal of all uploads interleaved and cut off anywhere |
| LfsObjects.StoredObjectLeftAlone | component/git_http.go:441-464 | whatever clients send: over any run a stored object is not changed by any upload that has not looked for it before; only an upload past its look, a commit or a body put past the server can |
| LfsObjects.LookFindsStored | component/git_http.go:441-474 | an upload of a stored object ends at its look and touches nothing; otherwise it goes on |
| LfsObjects.LoneUpload | builder/store/s3/minio.go:90-150 | an upload by itself stores its body unchecked in a migrated repository, and elsewhere if and only if size and hash are right, leaving nothing at the temporary key |
| LfsObjects.EndsWithoutTemp | builder/store/s3/minio.go:109-149 | an upload to the shared store that has found no object ends with the removal of what stands at its temporary key, whatever became of check and copy |
| LfsObjects.LoneCommit | component/repo.go:738-757 | a file commit by itself stores its content under its own oid, and its row with its length |
| LfsObjects.TrustedKeeps | component/git_http.go:418-510 | with trusted clients every run from the empty store keeps objects and rows consistent |
| LfsObjects.Overtaken | builder/store/s3/minio.go:109-149 | a run in which a checked upload stores the body another upload of its oid left at the temporary key |
| LfsObjects.SharedUploadBreaksRow | builder/store/s3/minio.go:109-149 | in a repository that is not migrated some run leaves a verified row with a size its object does not have |
| LfsObjects.MigratedUploadBreaksRow | component/repo.go:739-757 | in a migrated repository some run does |
| LfsObjects.ConsistentIff | builder/store/s3/minio.go:90-150 | every run keeps every object what its oid says if and only if no unchecked request sends a wrong body and no shared oid is sent both with a body that passes the check and with a wrong one |
| LfsObjects.RowsIff | component/git_http.go:480-510 | every run keeps every metadata row at the size of its object if and only if no key can receive bodies of different lengths, by commit, a body put past the server, unchecked upload or a copy of another upload's body |
| RuntimeFrames.NamesFacts | component/repo_deploy.go:91-124 | group names are distinct and are the accepted frames' names |
| RuntimeFrames.GroupedNext | component/repo_deploy.go:91-124 | one more frame goes to the end of its name's group, or opens a group at the end |
| RuntimeFrames.CheckFrameNameExist | component/repo_deploy.go:143-150 | the search finds the group of a name, or there is none |
| RuntimeFrames.GroupFrames | component/repo_deploy.go:91-124 | the loop panics if and only if the driver check of some frame panics or an accepted frame has no tag; otherwise it builds the groups of the accepted frames, each the order-preserving filter by name |
| RuntimeFrames.VersionIsTag | component/repo_deploy.go:108 | the version of a frame is the piece of its image behind the first colon, up to a second one |
| RuntimeFrames.AcceptedAre | component/repo_deploy.go:92-99 | the frames listed are all but the gpu frames whose driver version is above the configured one |
| RuntimeFrames.VersionsInOrder | component/repo_deploy.go:108-120 | the versions of a name are those of its frames, in order |
| RuntimeFrames.DriverTextPanics | component/repo_deploy.go:92-99 | with a system version configured, a GPU frame whose driver version is not a version panics although its image has a tag, and does not without a configured version |
| RuntimeFrames.UnparsableSystemIff | component/repo_deploy.go:92-99 | with a system version that is not a version the listing works if and only if there is no GPU frame and every frame has a tag |
| RuntimeFrames.GroupedKeepsAll | component/repo_deploy.go:91-124 | the groups together hold every accepted frame as often as the input |
| RuntimeFrames.ShiftToFront | component/repo_deploy.go:126-137 | the swaps move one element to the front and shift the others |
| RuntimeFrames.PutVllmFirst | component/repo_deploy.go:126-137 | the in-place loops move vllm to the front |
| RuntimeFrames.VllmFirstFacts | component/repo_deploy.go:126-137 | vllm is first if present, the others keep their order, nothing is lost |
| RuntimeFrames.VllmNamed | component/repo_deploy.go:128-137 | the first group named vllm behind the front goes to the front, the others stay in order |
| RuntimeFrames.ListRuntimeFrameworkV2 | component/repo_deploy.go:78-139 | panics if and only if some frame does, by its driver check or for want of a tag; otherwise the whole listing, with and without inference |
| RuntimeFrames.ListingFacts | component/repo_deploy.go:78-139 | for inference: vllm first if any accepted frame has it, all groups of accepted frames kept once, others in order |
| RecomScores.CalcTotalScore | component/recom.go:123-187 | succeeds unless the quality check fails; the result lists each wanted score once and then their sum, in whatever order the map is walked; other records are untouched |
| RecomScores.ComputedAre | component/recom.go:123-163 | a result holds what the freshness and download scripts gave, 0 for one that is not configured, and the quality scored now or the one there was |
| RecomScores.TotalOfThree | component/recom.go:165-186 | with no other scores the total is freshness and downloads and quality added up |
| RecomScores.TotalDetermined | component/recom.go:165-186 | the total does not depend on the order of the map |
| RecomScores.OldTotalIgnored | component/recom.go:165-186 | results from scores that differ in the old total alone end in the same total |
| RecomScores.OthersKept | component/recom.go:165-178 | a result has each name once, and a score of another name is in it if and only if it was there before with that value |
| RecomScores.Recomputed | component/recom.go:123-187 | recomputing from what was stored gives the same total, whether or not the quality is still due |
| RecomScores.ResultIsRight | builder/store/database/recom.go:36-42 | once stored, the repository's total is the sum of its other scores |
| RecomScores.WritingGives | builder/store/database/recom.go:36-42 | upserting any result of the calculation leaves the wanted scores and their sum, whatever order the map was walked in |
| RecomScores.CalculatedRight | component/recom.go:123-187 | what is stored after a calculation has the right total |
| RecomScores.UpsetOpWeights | builder/store/database/recom.go:66-110 | the operator's weight is set, other scores kept, and the total is again their sum |
| RecomScores.OpWeightSet | builder/store/database/recom.go:66-110 | afterwards the operator's weight is the one given, and every other score but the total is as it was |
| RecomBatches.ScoreStore.CalculateRecomScore | component/recom.go:55-121 | the keyset loop runs calcTotalScore on every repository once, in batches, whatever calculation or write fails, and ends early only when a read fails, after that many batches |
| RecomBatches.RunKeepsTotals | component/recom.go:55-121 | any run, however far it came, leaves every total right if it found them so, and right for all it calculated and wrote |
| HashMigration.Store.BatchMigrateRepoToHashedPath | component/repo.go:3010-3043 | the loop ends; rows marked, copies made, returned cursor and error for any faults |
| HashMigration.AutoVisitsAll | component/repo.go:3017-3042 | with auto and no failing query every unhashed repository above the cursor is visited once, in order |
| HashMigration.VisitedIsPrefix | component/repo.go:3017-3042 | what a cut-short call visited is a prefix: none skipped, none twice |
| HashMigration.OneBatch | component/repo.go:3017-3042 | a call without auto makes one query; if it succeeds so does the call, and goes through the first batch, or all if there are fewer or the size is not positive |
| HashMigration.MarkedHaveCopies | component/repo.go:3045-3064 | a repository is marked hashed only when its copy exists |
| HashMigration.LeftOver | component/repo.go:3026-3042 | what stays unhashed after a finished call is exactly the failures |
| HashMigration.ResumeContinues | component/repo.go:3010-3043 | one batch and then an auto call from its returned cursor visit what one auto call would |
| HashMigration.NothingAboveMax | component/repo.go:3010-3043 | above the returned cursor nothing is left, so failures are not retried from there |
| MirrorBatch.Store.BatchCreate | component/mirror.go:447-506 | the table afterwards for any outcome of the three statements: refreshed rows, then one row per new entry |
| MirrorBatch.UpdatesAndCreatesSplit | component/mirror.go:463-489 | updates and creations split the request by URL: disjoint, covering, and nothing else |
| MirrorBatch.EveryUrlHasMirror | component/mirror.go:447-506 | afterwards a URL has a mirror if and only if it had one or was requested |
| MirrorBatch.DistinctCarried | component/mirror.go:447-506 | with distinct URLs every mirror of a requested URL has the requested priority (0 raised to 1) and time |
| MirrorBatch.LastEntryCarriedIff | component/mirror.go:455-489 | with repeated URLs all mirrors of one carry its last entry if and only if it was known or its entries agree |
| MirrorBatch.OthersKept | builder/store/database/mirror.go:404-411 | mirrors not requested do not change, and of requested ones only two columns do |
| MirrorBatch.WrittenColumns | component/mirror.go:463-489 | a known mirror gets priority, 0 raised to 1, and time of its URL's last entry; a new one has URL, source, priority and time of its entry, no repository, and is queued |
| MirrorBatch.LastForIs | component/mirror.go:455-461 | the entry that counts for a URL is the last one with it |
| MirrorBatch.NewInOrder | component/mirror.go:474-489 | new mirrors come in the order of the request |
| MirrorBatch.OneMirrorIff | component/mirror.go:474-489 | a new URL gets exactly one mirror if and only if it occurs once in the request |
| MirrorBatch.Rerun | component/mirror.go:447-506 | the same request again creates nothing and settles after one more run, at once for distinct URLs |

## Left out

- Stores, git servers, object storage, Redis, NATS and Kubernetes are inputs and abstract tables; transactions, timeouts and logging are not modelled.
- YAML, SHA-256, the score scripts and URL signing appear as functions with the one law a theorem needs.
- Floating-point rounding: `float64` is `real`.
- TreeCursor.GetAllFiles: does not model a cursor text that no server wrote, which ToInt counts as 0, nor a listing that changes during the walk.
- SyncClient.Client.SyncAsClient: does not model concurrent syncs, the contents of users, tags, files and scores, or the order of the work list; the path in a repository's info is taken to be its entry's.
- MultiSync.EveryRunKeepsInv: does not model the server deleting old versions of its log.
- FanOut.DeadlockIff: a negative concurrency, on which making the token channel panics, is not a state of the machine.
- FanOut.FinishedHandledAll: a goroutine's own result is not part of the fan-out, which ignores it; the rows it writes are in RepoFiles.
- RepoFiles.Store.CreateRepoFileRecords: the cursor is the number of a page of a fixed listing; two runs for the same repository at once are not modelled.
- SpaceIndex.Index: access rights decide the visible repositories and are not modelled; the listing is taken not to change while pages are read.
- LfsLocks.EveryRunKeepsInv: permission checks and the paging of ListLocks are not modelled.
- LfsObjects.RunKeeps: rows written by commits of pointer files, deletions, a repository becoming migrated, what an upload is answered, the parts of a multipart upload before its completion, and what the object store itself does with the checksum signed into an upload link are not modelled.
- RuntimeFrames.ListRuntimeFrameworkV2: hashicorp/go-version is not part of this model; a driver version is its place in the order of versions, or none when the text is not a version.
- RecomBatches.ScoreStore.CalculateRecomScore: repositories and their scores do not change from outside during the run; the scores of a batch are read one repository at a time.
- HashMigration.Store.BatchMigrateRepoToHashedPath: other writers of the table during the run are not modelled.
- MirrorBatch.Store.BatchCreate: the columns of a mirror that the call neither sets nor reads are not modelled.
- Plain CRUD components, notifications, role checks and status texts: nothing to prove beyond one body.
