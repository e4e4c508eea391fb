# Verified models of TimeKeeper's core algorithms and protocols

TimeKeeper keeps project history, wakes agents and serves a desktop and a web front end. This project models the
parts of it whose correctness is least obvious from the code, and proves what they promise for all inputs and all
runs.

| file | what it models |
|---|---|
| `CommonSubsequence.dfy` | longest common subsequences, stated over all common subsequences |
| `Text.dfy`, `Decimal.dfy`, `Wrappers.dfy`, `Iteration.dfy` | lines and white space; decimal numbers as text; optional values; repeated application |
| `LineDiff.dfy` | the line diff: LCS table, walk, hunks, coarse fallback |
| `EditDistance.dfy` | Levenshtein distance by rolling rows, command suggestion |
| `CountMinSketch.dfy` | the 4-bit count-min sketch of the cache |
| `RingState.dfy`, `RingRuns.dfy`, `RingValues.dfy`, `RingCache.dfy` | a cache shard as a value, the accounting and layout of whole runs, the values they return, and the object that refines it |
| `DesktopSession.dfy` | startup and shutdown of the desktop app as interleaved atomic sections |
| `Autosave.dfy` | the editor's autosave queue against a version store with other writers |
| `EventStream.dfy` | the resumable event stream over an append-only log |
| `ControlTunnel.dfy`, `Handshake.dfy` | line framing and the two sides of the bridge handshake |
| `GuardianWake.dfy`, `UniqueEnv.dfy` | wake, poll and continuation loops; environment deduplication |
| `HostsBlock.dfy` | the managed block of the hosts file |
| `ReplyForest.dfy` | grouping, sorting and rendering of message replies |

Objects whose fields change (cache shard, sketch, stream, tunnel, worker) are classes, loops are methods, and both are
proved against functions or relations on values; what holds over runs is proved about those. Protocols with several
parties (desktop, editor, event log) are transition systems whose runs are all interleavings. Each locked section is one
atomic step. Strings stand for the bytes or code points the code indexes. Go's map iteration order is an arbitrary
choice, so every result about eviction holds for every order.

Clocks, hashes, TTL seconds, the answers of servers and work commands, the URL parser, the JSON codec, Go's `%q` and the
lower-casing of a code point are parameters.

## What the proofs show about the code

Some properties one would expect hold only under a condition. For each of these the exact condition is proved, and a
failing run or input is given as a lemma.

- A cache update in place to a shorter value never returns the bytes it frees: `used` exceeds the live bytes by exactly
  the total shrinkage of the run, and a `Set` that does not update in place is refused exactly when those lost bytes
  leave too little room (`RingRuns.RunAccounted`, `RingRuns.RunSetFullIff`), even with an empty directory
  (`RingRuns.RefusedWhenEmpty`).
- Once a write wraps to the start of the ring it may land on a live entry, whose lookup then returns foreign bytes
  (`RingValues.WrapOverwritesLiveValue`). In every run a lookup returns the value last set exactly when the last write to
  each of that value's bytes put the right byte there (`RingValues.LookupIsLatestIff`); it has done so ever since the value
  was stored exactly when every later write agrees with it where they overlap (`RingValues.RightSinceStoreIff`). So an
  entry that later writes left alone is right, whatever landed on others (`RingValues.LookupReturnsLatest`).
- Live extents stay apart exactly as long as every write lands clear of the entries still live
  (`RingRuns.ApartIffClear`). A write lands clear exactly when all entries lying across its target were evicted
  (`RingRuns.LandsClearIffOthersGone`); a target that is clear before the call is enough
  (`RingRuns.ClearLandsClear`), and necessary when nothing needs to be evicted (`RingRuns.LandsClearIff`).
- A desktop shutdown that times out while it holds the session leaves the session open (`DesktopSession.TimeoutLeaks`,
  `DesktopSession.ClosedIff`).
- An editor behind the newest stored version, whether another writer put it there or its own accepted save whose answer
  was lost, never has a save accepted again (`Autosave.OvertakenForGood`, `Autosave.LostAnswerOvertakes`). Left
  undisturbed, an editor ends with its text as the newest version, within a bounded number of steps in whatever order,
  exactly when it is not overtaken and not stranded by a failed save (`Autosave.SettlesIff`, `Autosave.RefusedSaveStrands`); a stranded one needs one click
  (`Autosave.OneClickSettles`).
- An event that cannot be encoded is skipped. A full batch of fifty such events blocks the stream for good, whatever is
  appended, and nothing less does (`EventStream.BlockedForGood`, `EventStream.AdvancesIff`,
  `EventStream.FiftyBadEventsBlock`); polling sends everything else pending exactly when no such fifty stand before an
  event that could be sent (`EventStream.DrainsIff`).
- The coarse line diff is a shortest patch exactly when no line is on both sides of its hunk
  (`LineDiff.StrippedShortestIff`); for every other input a shorter patch is constructed (`LineDiff.KeepSharedLine`).
- Adding the hosts block twice can differ from adding it once when a line is too long for the scanner
  (`HostsBlock.AddIdempotentIff`, `HostsBlock.AddTwiceDiffers`). Removing shortens the text exactly when the begin sentinel
  comes before the end of the end sentinel; otherwise it doubles the text between them (`HostsBlock.StripLength`,
  `HostsBlock.RemoveDoubles`), although the comment at `internal/cli/hosts.go:172-174` says a block is removed.
- Adding and then removing the block restores a body without a whole block exactly when it holds no stray sentinel
  (`HostsBlock.RemoveAfterAddIff`). A stale begin sentinel loses every line from it on (`HostsBlock.StaleBegin`,
  `HostsBlock.UserLineLost`); a stale end sentinel keeps the block and doubles what follows it (`HostsBlock.StaleEnd`).
  On a body with a block, adding first leaves the outcome of removing alone exactly when adding does nothing or removing
  leaves no stray sentinel (`HostsBlock.RemoveAfterReplaceIff`).
- Replies on a cycle of parent links are never shown (`ReplyForest.AllRenderedIff`, `ReplyForest.SelfReplyIsHidden`).
- The comment at `internal/cache/cache.go:77` puts even counters in the high half of a byte; the code puts odd ones
  there, and the model follows the code.

## Model

| member | source | states |
|---|---|---|
| `CommonSubsequence.LcsBounds` | internal/api/file_history.go:331-341 | no pairing of equal lines of the two suffixes is longer than the table's recurrence |
| `CommonSubsequence.LcsReached` | internal/api/file_history.go:331-341 | some pairing of equal lines reaches the recurrence |
| `CommonSubsequence.LcsIsLongest` | internal/api/file_history.go:327-341 | the recurrence at the origin is the greatest length among all common subsequences |
| `Text.JoinSplit` | internal/api/file_history.go:320-321 | joining the split lines gives the text back, and no line contains a newline |
| `Text.SplitJoin` | internal/cli/hosts.go:85 | splitting joined lines gives the lines back |
| `Text.TrimIsTrimmed` | internal/cli/cli.go:382 | trimming takes Unicode white space off both ends, all of it and nothing else |
| `Text.TrimmedOnce` | internal/cli/cli.go:382 | there is only one way to do that |
| `LineDiff.ReversedPatchUndoes` | internal/api/file_history.go:310-317 | swapping both sides of every hunk of any applicable patch gives a patch that undoes it |
| `LineDiff.PatchLowerBound` | internal/api/file_history.go:343-363 | no patch whatsoever between the two texts removes or adds fewer lines than a longest common subsequence forces |
| `LineDiff.LcsPatchIsShortest` | internal/api/file_history.go:343-363 | a patch with exactly those totals is a shortest one among all patches |
| `LineDiff.KeptIsEarliest` | internal/api/file_history.go:350-358 | taking a line of the old text first whenever that costs nothing keeps lines as early in the new text as any longest common subsequence, in dictionary order |
| `LineDiff.FillRow` | internal/api/file_history.go:331-341 | filling one row from the right extends the correct part of the table upwards |
| `LineDiff.FillTable` | internal/api/file_history.go:327-341 | every cell of the table holds the longest common length of the two suffixes |
| `LineDiff.CollectHunk` | internal/api/file_history.go:349-359 | the inner loop stops at the next match or at both ends, collects exactly the lines it passed, gives up no common line and decides ties as the walk does |
| `LineDiff.NextHunk` | internal/api/file_history.go:348-361 | one hunk of the walk keeps the replay so far, the separation of hunks and "matched so far plus best still to come is the overall best" |
| `LineDiff.WalkTable` | internal/api/file_history.go:343-363 | the hunks are a patch in both directions, non-empty, ordered, separated by a common line, removing n - L and adding m - L lines |
| `LineDiff.TableDiff` | internal/api/file_history.go:327-363 | the table branch gives a correct and shortest patch, with L the length of a longest common subsequence, and of all shortest ones one that keeps lines earliest in the new text |
| `LineDiff.StripCommon` | internal/api/file_history.go:456-465 | the two loops leave a common prefix and suffix that cannot be extended without overlap |
| `LineDiff.StrippedIsSmallest` | internal/api/file_history.go:456-477 | no patch of a single hunk is smaller than the stripped middle |
| `LineDiff.KeepSharedLine` | internal/api/file_history.go:456-477 | any line on both sides of the stripped middle can be kept by a patch of two hunks that removes one line fewer |
| `LineDiff.StrippedShortestIff` | internal/api/file_history.go:456-477 | replacing the stripped middle is a shortest patch among all patches exactly when its two sides share no line |
| `LineDiff.CoarseDiff` | internal/api/file_history.go:456-477 | the fallback gives a correct patch of at most one hunk, none exactly when the texts are equal, the smallest such, and a shortest patch exactly when no line is both removed and added |
| `LineDiff.CoarseCounts` | internal/api/file_history.go:513-526 | the two counts are those of a correct smallest single-hunk patch |
| `LineDiff.DiffLines` | internal/api/file_history.go:322-364 | in both branches the hunks are a correct patch both ways; up to two million cells also a shortest one with the earliest kept lines, beyond that shortest exactly when the hunk's sides share no line |
| `LineDiff.LineDelta` | internal/api/file_history.go:319-364 | patching the old text gives the new text and the reversed patch gives the old text, character for character |
| `EditDistance.LevReached` | internal/cli/cli.go:421-448 | an insert/delete/substitute script of exactly the computed length exists |
| `EditDistance.EditMovesByOne` | internal/cli/cli.go:421-448 | one edit anywhere in a string changes its distance to any other by at most one, up or down |
| `EditDistance.LevBounds` | internal/cli/cli.go:421-448 | no edit script is shorter than the recurrence |
| `EditDistance.LevIsDistance` | internal/cli/cli.go:421-448 | the recurrence is the minimum length over all edit scripts |
| `EditDistance.ZeroIffEqual` | internal/cli/cli.go:422-424 | the distance is zero exactly for equal strings |
| `EditDistance.Symmetric` | internal/cli/cli.go:421-448 | the distance is symmetric |
| `EditDistance.Triangle` | internal/cli/cli.go:421-448 | the triangle inequality |
| `EditDistance.LengthBounds` | internal/cli/cli.go:421-448 | the distance lies between the difference of the lengths and the longer length |
| `EditDistance.NextRow` | internal/cli/cli.go:435-445 | each rolling row holds the distances of one prefix to all prefixes of the other word |
| `EditDistance.ComputeDistance` | internal/cli/cli.go:421-448 | the result is the length of a shortest edit script |
| `EditDistance.OptionsAreShort` | internal/cli/cli.go:361-377 | every candidate word has at most nine characters |
| `EditDistance.Nearest` | internal/cli/cli.go:402-410 | the loop finds the first candidate at the least distance, unless all reach the initial bound |
| `EditDistance.LoweredConcat` | internal/cli/cli.go:382 | lower-casing goes code point by code point |
| `EditDistance.SuggestCommand` | internal/cli/cli.go:381-417 | the first candidate nearest to the lower-cased input without the white space around it, or nothing exactly when that is empty or the distance exceeds (len+2)/3; the initial bound of 2^30 never matters |
| `CountMinSketch.BumpedValue` | internal/cache/cache.go:100-112 | incrementing one nibble saturates at 15 and leaves its neighbour alone |
| `CountMinSketch.HalvedValue` | internal/cache/cache.go:135-139 | one shift and mask halves both nibbles of a byte independently |
| `CountMinSketch.CellsDominate` | internal/cache/cache.go:95-139 | in every run of increments and resets each counter of a hash is at least its exact decayed count |
| `CountMinSketch.NeverUnderestimates` | internal/cache/cache.go:95-139 | in every run the estimate is at least the exact saturating decayed count, whatever collides |
| `CountMinSketch.ExactWithoutCollision` | internal/cache/cache.go:95-139 | the estimate is exact when one level of the hash is hit by nothing else |
| `CountMinSketch.IndexIs` | internal/cache/cache.go:96-98 | the counters of a key are an arithmetic progression from its hash in steps of the upper half, the 32-bit arithmetic making no difference |
| `CountMinSketch.AloneIsExact` | internal/cache/cache.go:95-139 | a key with an odd upper half that is alone in the sketch is counted exactly |
| `CountMinSketch.WidthLoopStops` | internal/cache/cache.go:81-86 | in 32-bit arithmetic the width loop ends exactly for targets up to 2^31 |
| `CountMinSketch.Sketch.constructor` | internal/cache/cache.go:81-93 | whenever the width loop ends, the width is the least power of two at or above four times the capacity in 32 bits and all counters are zero; a product of zero leaves none |
| `CountMinSketch.Sketch.Increment` | internal/cache/cache.go:95-114 | the nibble loop performs one increment of the run, indices always in range |
| `CountMinSketch.Sketch.Estimate` | internal/cache/cache.go:116-133 | the least counter over the levels, at least the exact count of the whole history and equal to it without a collision, in particular for a key with an odd upper half that is alone |
| `CountMinSketch.Sketch.Reset` | internal/cache/cache.go:135-139 | halves every counter, one decay of the run |
| `RingState.LittleEndianRoundTrip` | internal/cache/cache.go:602-612 | a number that fits its width is read back unchanged |
| `RingState.HeaderRoundTrip` | internal/cache/cache.go:602-624 | a header with fitting fields survives encoding into the ring |
| `RingState.EvictedOneReclaims` | internal/cache/cache.go:536-545 | one more eviction removes exactly one entry and keeps "no pinned entry is gone and what went is free" |
| `RingRuns.StepAccounted` | internal/cache/cache.go:304-317 | each of lookup, set and delete keeps live bytes <= used <= ring size, extents inside the ring and entries active under their own hash; slack grows by exactly the shrinkage |
| `RingRuns.RunAccounted` | internal/cache/cache.go:379-476 | the same in every state of every run, wrapped or not, with slack equal to the total shrinkage so far |
| `RingRuns.FullIff` | internal/cache/cache.go:536-545 | an insertion is refused exactly when slack, pinned bytes and the new entry exceed the ring, independently of eviction order |
| `RingRuns.RunSetFullIff` | internal/cache/cache.go:425-428 | in every run a set that does not update in place fails exactly when bytes lost to shrinking plus its size exceed the ring |
| `RingRuns.StepApart` | internal/cache/cache.go:281-512 | every step whose write lands clear keeps live extents apart |
| `RingRuns.ApartIffClear` | internal/cache/cache.go:435-472 | live extents are apart in every state of a run exactly when every write landed clear of the entries still live |
| `RingValues.StepWrites` | internal/cache/cache.go:404-455 | every step changes exactly the ring bytes of the entry or value it writes |
| `RingValues.StepKeepsPlace` | internal/cache/cache.go:304-512 | an entry a step did not store was live before, in the same place |
| `RingValues.CarriesOnIff` | internal/cache/cache.go:404-455 | a write keeps a value in the ring exactly when it agrees with it where they overlap |
| `RingValues.LiveSinceStore` | internal/cache/cache.go:379-476 | in every run a live entry has been live in one place since its last store |
| `RingValues.ValueIsLatestIff` | internal/cache/cache.go:281-512 | in every state of every run a live entry holds the value last set exactly when the last write to each of its bytes agrees |
| `RingValues.LookupIsLatestIff` | internal/cache/cache.go:281-327 | a lookup returns the value last set for its hash exactly under that condition, under any eviction, expiry, wrap, shrinking or re-insertion |
| `RingValues.LookupFoundIff` | internal/cache/cache.go:298-317 | in every run a lookup finds a live entry exactly when the lifetime last given to it is zero or longer than the seconds passed since on the 32-bit clock, and otherwise drops it |
| `RingValues.InPlaceIff` | internal/cache/cache.go:403-422 | a stored value stays in place, and nothing else moves, exactly when its entry is live and it is no longer than the value last stored |
| `RingValues.OutcomesIff` | internal/cache/cache.go:379-499 | which refusal a set gets, key size before value size, and when a delete removes something |
| `RingValues.FoundIsSpared` | internal/cache/cache.go:318-319 | an entry just found is evicted next only if all others have been visited too |
| `RingValues.RightSinceStoreIff` | internal/cache/cache.go:281-512 | the value has been right in every state since it was stored exactly when every write since then agrees with it where they overlap |
| `RingValues.LookupReturnsLatest` | internal/cache/cache.go:281-327 | a lookup whose value no write has touched since it was stored returns it, whatever landed on other entries |
| `RingValues.RunSound` | internal/cache/cache.go:281-512 | as long as all writes land clear, wrapped or not, extents are apart and all values are the latest |
| `RingRuns.ClearLandsClear` | internal/cache/cache.go:425-472 | if the target is clear of every entry but the one replaced before the call, the write lands clear for every eviction order |
| `RingRuns.LandsClearIff` | internal/cache/cache.go:425-472 | when no eviction is needed that condition is exact |
| `RingRuns.LandsClearIffOthersGone` | internal/cache/cache.go:425-472 | with eviction, a write lands clear exactly when every entry lying across its target is gone |
| `RingValues.RunUnwrapped` | internal/cache/cache.go:438-441 | until a stored write wraps, all writes land clear and the values agree |
| `RingValues.WrapOverwritesLiveValue` | internal/cache/cache.go:438-441 | a concrete run in which a wrapping write does not land clear and a lookup returns another entry's value |
| `RingRuns.RefusedWhenEmpty` | internal/cache/cache.go:411-414 | a concrete run in which shrinking and deleting a value makes a two-byte value be refused on an empty directory |
| `RingCache.CacheShard.constructor` | internal/cache/cache.go:252-261 | a new shard is the empty state the runs start from |
| `RingCache.CacheShard.DeleteLocked` | internal/cache/cache.go:502-512 | removes an active entry and its bytes, nothing else |
| `RingCache.CacheShard.Delete` | internal/cache/cache.go:479-499 | is a delete step and keeps the accounting |
| `RingCache.CacheShard.Get` | internal/cache/cache.go:281-327 | is a lookup step; found exactly when live and within its lifetime in wrapping 32-bit seconds, marking the entry visited, and dropped otherwise |
| `RingCache.CacheShard.GetWithTTL` | internal/cache/cache.go:330-374 | is the same lookup step; the reported seconds and the wrapped 32-bit seconds passed add up to the entry's lifetime |
| `RingCache.CacheShard.FirstPass` | internal/cache/cache.go:556-571 | in any order finds an entry neither pinned nor visited if there is one; if not, every visited mark of an unpinned entry is cleared |
| `RingCache.CacheShard.SecondPass` | internal/cache/cache.go:573-586 | finds an entry that is not pinned if there is one |
| `RingCache.CacheShard.ChooseVictim` | internal/cache/cache.go:549-590 | never chooses a pinned entry, nor a visited one while another is available; finds none only if all are pinned |
| `RingCache.CacheShard.EvictOne` | internal/cache/cache.go:549-599 | removes exactly one such entry and its bytes, or changes nothing because all are pinned |
| `RingCache.CacheShard.EnsureSpace` | internal/cache/cache.go:536-545 | terminates with room or with nothing evictable, and evicts no more than needed |
| `RingCache.CacheShard.WriteEntry` | internal/cache/cache.go:443-455 | the three copies write header, key and value contiguously and leave every other byte |
| `RingCache.CacheShard.Insert` | internal/cache/cache.go:425-475 | is an insertion step: evict as needed, wrap if it runs off the end, record the entry |
| `RingCache.CacheShard.Set` | internal/cache/cache.go:379-476 | is a set step with its size checks, in-place update and re-insertion, and keeps the accounting |
| `DesktopSession.NextKeepsInv` | cmd/desktop/app.go:134-196 | every atomic step keeps the started session in exactly one place |
| `DesktopSession.RunInv` | cmd/desktop/app.go:134-311 | so it is in every interleaving of any number of startups and shutdowns |
| `DesktopSession.GuardsIff` | cmd/desktop/app.go:134-147 | closing and start-up guards in terms of the events: some shutdown entered; a startup entered before every shutdown |
| `DesktopSession.LateStartupIsRefused` | cmd/desktop/app.go:134-139 | a startup is refused exactly when a shutdown or another startup entered before it |
| `DesktopSession.WaitsIff` | cmd/desktop/app.go:280-298 | a shutdown waits exactly when a startup entered before every shutdown |
| `DesktopSession.DroppedIff` | cmd/desktop/app.go:163-176 | a session is dropped exactly when it came with an error and the app was not closing |
| `DesktopSession.AtMostOneSession` | cmd/desktop/app.go:134-196 | at most one session is started, none is closed twice, and the done channel is never closed twice |
| `DesktopSession.ClosedAfterDoneIff` | cmd/desktop/app.go:280-311 | after a wait ended by the channel nothing is stored, and an owned session is closed exactly when no other shutdown holds it or timed out with it |
| `DesktopSession.ShutdownAfterDone` | cmd/desktop/app.go:280-311 | with one shutdown, the owned session was closed exactly once, by that shutdown if it took it and by the startup otherwise |
| `DesktopSession.ClosedIff` | cmd/desktop/app.go:280-311 | at rest after a shutdown, an owned session was closed exactly when no shutdown timed out with it and it did not come with an error |
| `DesktopSession.UnownedClosedIff` | cmd/desktop/app.go:178-182 | at rest a session the app does not own was closed exactly when no shutdown took it, it is not stored and it did not come with an error |
| `DesktopSession.TimeoutLeaks` | cmd/desktop/app.go:292-297 | a concrete interleaving in which an owned session is never closed |
| `Autosave.NextNothingLost` | web/file-editor.js:404-468 | every event keeps the counter equal to the unfinished operations, a pending timer on the current text, and unsaved text on its way |
| `Autosave.NextInOrder` | web/file-editor.js:435-468 | every event keeps the queue order of snapshots and of posted ones |
| `Autosave.NextConsistent` | web/file-editor.js:435-468 | every event keeps the saved content equal to the content of the version the editor knows |
| `Autosave.RunInvariants` | web/file-editor.js:404-468 | all three in every state of every run |
| `Autosave.NoLostEdit` | web/file-editor.js:404-533 | unsaved text always has a timer pending with that text, a queued save, or a failed most recent save; `queuedSaves` is the number of unfinished operations |
| `Autosave.SavesInOrder` | web/file-editor.js:435-468 | posted snapshots are a subsequence of queued ones, and exactly the snapshots equal to the known content are skipped |
| `Autosave.EditSchedules` | web/file-editor.js:404-425 | an edit back to the saved text with nothing under way leaves the editor at rest, any other sets the timer for the new text |
| `Autosave.ClickQueues` | web/file-editor.js:517-528 | a click queues the text unless it is saved and nothing is under way, and leaves no timer |
| `Autosave.AcceptedFollowsKnown` | web/file-editor.js:440-448 | each accepted save directly follows the version, and content, the editor last knew, among arbitrary other writers |
| `Autosave.OvertakenForGood` | web/file-editor.js:442-466 | once the store holds a version newer than the editor knows or is about to know, every later request of it is rejected, whatever happens |
| `Autosave.RestIsNear` | web/file-editor.js:404-468 | every undisturbed continuation is at most as long as a bound computed from queue, request, timer and text |
| `Autosave.SettlesIff` | web/file-editor.js:404-468 | from any reachable state undisturbed steps must, and can, end with the text as the newest stored version exactly when the editor is not overtaken and not stranded, within the bound |
| `Autosave.OneClickSettles` | web/file-editor.js:517-533 | an editor that is not overtaken settles after one click on save |
| `Autosave.LostAnswerOvertakes` | web/file-editor.js:442-466 | a concrete run in which the lost answer of an accepted save, without any other writer, ends saving for good |
| `Autosave.RefusedSaveStrands` | web/file-editor.js:427-433 | a concrete run in which a refused save leaves text that nothing saves until a click |
| `Autosave.AtRestAllIsSaved` | web/file-editor.js:427-433 | at rest after a success the text is the stored content of the known version |
| `EventStream.NextKeepsInv` | internal/api/events_stream.go:60-94 | polls, failures and appends keep "sent exactly the encodable events between start and cursor" |
| `EventStream.RunInv` | internal/api/events_stream.go:31-94 | so it is in every run |
| `EventStream.SendsPrefix` | internal/api/events_stream.go:31-94 | what was sent is a prefix of the encodable events after the starting ID, for every log, and the interval stays within 100 ms and 1 s |
| `EventStream.BacksOff` | internal/api/events_stream.go:69-78 | after n polls in vain the interval is the smaller of a second and 2^n times what it was, whatever else happens between |
| `EventStream.SpeedsUp` | internal/api/events_stream.go:58-78 | a poll that finds events sets the interval to a tenth of a second; a stream opens with a quarter |
| `EventStream.SendsLogPrefixIff` | internal/api/events_stream.go:79-84 | it is a prefix of the log itself exactly when every event up to the cursor could be encoded |
| `EventStream.ReconnectContinues` | internal/api/events_stream.go:31-41 | a client that received only the first n events sent and reopens at the last ID it has, on the grown log, gets exactly the rest, for every n |
| `EventStream.LastIdIsCursor` | internal/api/events_stream.go:70-92 | the last ID sent is the stream's cursor |
| `EventStream.PollAdvances` | internal/api/events_stream.go:70-92 | a successful poll sends what can be encoded of the next fifty events and leaves pending what lies behind the last of those |
| `EventStream.PollsConserve` | internal/api/events_stream.go:70-92 | after any number of polls, sent and still sendable events together are what they were |
| `EventStream.PollsDrain` | internal/api/events_stream.go:70-92 | without fifty unencodable events in a row before an encodable one, as many polls as there are encodable events send all of them in order |
| `EventStream.DrainsIff` | internal/api/events_stream.go:70-92 | some number of polls sends all encodable pending events exactly when there is no such gap |
| `EventStream.FullBatchesDrain` | internal/api/events_stream.go:70-92 | if all pending events can be encoded, every poll sends fifty |
| `EventStream.StuckIff` | internal/api/events_stream.go:79-84 | a poll that finds events leaves the cursor exactly when none of them can be encoded |
| `EventStream.BlockedForGood` | internal/api/events_stream.go:70-92 | once the next batch is full and unencodable, cursor and output never change again, whatever is appended |
| `EventStream.AdvancesIff` | internal/api/events_stream.go:70-92 | in every reachable state some continuation advances exactly when the stream is not blocked |
| `EventStream.FiftyBadEventsBlock` | internal/api/events_stream.go:79-84 | a concrete run in which a good event behind fifty bad ones is never sent |
| `EventStream.Stream.constructor` | internal/api/events_stream.go:31-41 | the trimmed and parsed query parameter overrides that of the header, each when well formed, and both default to zero |
| `EventStream.StartIdIs` | internal/api/events_stream.go:31-41 | the start is the number that the trimmed query is, else the one the trimmed header is, else zero |
| `EventStream.ReconnectStartsAt` | internal/api/events_stream.go:31-41 | the ID printed with an event, sent back as the header, reopens the stream right after that event |
| `Decimal.ParseFormat` | internal/api/events_stream.go:33 | a printed 64-bit number is parsed back |
| `Decimal.ParseIntIff` | internal/api/events_stream.go:33 | a text is parsed as n exactly when it is a fitting sign, leading zeros and n as printed, and n has 64 bits |
| `EventStream.Stream.SendAll` | internal/api/events_stream.go:79-91 | the loop sends the encodable events in order and ends at the greatest ID sent |
| `EventStream.Stream.Tick` | internal/api/events_stream.go:69-93 | the loop body is a polling step of the transition system and keeps its invariant; in vain it doubles the interval up to a second |
| `ControlTunnel.ReadLineFirst` | internal/bridge/control.go:55 | the first framed line is read back exactly |
| `ControlTunnel.CutStreamGivesPrefix` | internal/bridge/control.go:14-16 | wherever the byte stream is cut, the reader gets exactly the lines that arrived whole |
| `ControlTunnel.Tunnel.Send` | internal/bridge/control.go:35-47 | the bytes written frame one more line |
| `ControlTunnel.Tunnel.Receive` | internal/bridge/control.go:51-67 | consumes and returns the first line, or reports the end of the stream |
| `Handshake.HelloRoundTrip` | internal/bridge/handshake.go:148-161 | leaving out empty optional parameters loses nothing |
| `Handshake.ResultRoundTrip` | internal/bridge/handshake.go:134-142 | the plugin's answer decodes to its version, ID and capabilities |
| `Handshake.DedupSameElements` | internal/bridge/handshake.go:70-82 | deduplication gives distinct elements and the same set |
| `Handshake.DedupKeepsFirsts` | internal/bridge/handshake.go:70-82 | it keeps first occurrences in their order |
| `Handshake.NormaliseCapabilities` | internal/bridge/handshake.go:70-82 | fails exactly when a capability is nothing but white space, otherwise deduplicates the list with the white space around each taken off |
| `Handshake.DecodeResultIff` | internal/bridge/handshake.go:52-60 | decoding the answer fails exactly on a field of the wrong type and otherwise yields each field or its empty value |
| `Handshake.DecodeHelloIff` | internal/bridge/handshake.go:110-117 | decoding the hello fails exactly on a field of the wrong type |
| `Handshake.AcceptsIff` | internal/bridge/handshake.go:44-90 | whatever comes back, core accepts exactly hello_ok with the right version and ID, no empty capability and an empty or loopback base |
| `Handshake.ServesIff` | internal/bridge/handshake.go:101-146 | whatever reaches it, a plugin accepts exactly a hello with the right version and its ID, and answers every hello it can decode |
| `Handshake.Refuses` | internal/bridge/handshake.go:118-132 | the refusals name both versions or both IDs in the right order |
| `Handshake.PerformHandshake` | internal/bridge/handshake.go:32-97 | core writes one hello and concludes as specified from whatever bytes come back |
| `Handshake.ServeHandshake` | internal/bridge/handshake.go:101-146 | the plugin answers, refusal texts included, and concludes as specified from whatever bytes reach it |
| `Handshake.WireRoundTrip` | internal/bridge/control.go:35-67 | a message sent over the tunnel is received unchanged |
| `Handshake.Answered` | internal/bridge/handshake.go:101-146 | every hello of core is answered, and core's judgement of the answer |
| `Handshake.Agreement` | internal/bridge/handshake.go:32-146 | plugin succeeds iff version and ID agree; core succeeds iff moreover all capabilities are non-empty and the origin is loopback or empty; both then hold the same ID, parameters and deduplicated capabilities |
| `Handshake.AllowlistIsFrozen` | internal/bridge/handshake.go:52-97 | whatever a plugin answers, accepted capabilities are distinct, non-empty and exactly the declared ones in first-declared order |
| `Handshake.RefusalRoundTrip` | internal/bridge/control.go:70-100 | a refusal is read back with its code and detail |
| `UniqueEnv.LastOnlyPositions` | internal/cli/guardian_wake.go:708-726 | the result reads off, in order, exactly the last position of every key |
| `UniqueEnv.LastOnlyKeys` | internal/cli/guardian_wake.go:708-726 | keys are pairwise distinct and the same as in the input |
| `UniqueEnv.Idempotent` | internal/cli/guardian_wake.go:708-726 | doing it twice is doing it once |
| `UniqueEnv.ReverseInPlace` | internal/cli/guardian_wake.go:722-724 | the swap loop reverses the kept entries |
| `UniqueEnv.FindKey` | internal/cli/guardian_wake.go:712-715 | the longest prefix without an equals sign |
| `UniqueEnv.Unique` | internal/cli/guardian_wake.go:708-726 | the backward scan and reversal keep exactly the last entry of every key |
| `GuardianWake.AcknowledgedOnlyAfterWork` | internal/cli/guardian_wake.go:308-342 | in every log an acknowledgement comes straight after listing, delivery, successful work and a successful acknowledge call, all for that nudge |
| `GuardianWake.CyclesAreLicensed` | internal/cli/guardian_wake.go:359-426 | every until-idle cycle comes straight after a positive runnable check, every bounded one after an acknowledgement or a success |
| `GuardianWake.LogGrows` | internal/cli/guardian_wake.go:296-430 | an allowed and truthful act keeps the whole log justified and counts as it should |
| `GuardianWake.Worker.RunAdditional` | internal/cli/guardian_wake.go:359-375 | at most maxCycles - 1 cycles, fewer only after a failure; the cycle counter grows by the return value |
| `GuardianWake.Worker.RunBatch` | internal/cli/guardian_wake.go:403-426 | every cycle straight after a positive runnable check; a full batch, or a stopping act |
| `GuardianWake.Worker.RunUntilIdle` | internal/cli/guardian_wake.go:386-430 | at most 64 * (maxCycles - 1) cycles, fewer only after a stopping act; the counter grows by exactly the return value |
| `GuardianWake.Worker.ServeNudge` | internal/cli/guardian_wake.go:296-342 | acknowledges one nudge and counts one cycle, or changes neither the counter nor the last nudge; exit code by where it stopped |
| `GuardianWake.Worker.Wake` | internal/cli/guardian_wake.go:296-353 | one wake serves one nudge and follows up within its limit or until a stopping act; exit code 1 exactly after a failed listing, binding, work cycle or acknowledge call; the context counts all completed cycles and names the last acknowledged nudge |
| `GuardianWake.Worker.Poll` | internal/cli/guardian_wake.go:224-293 | any number of turns keeps all that, with cycles bounded by the turns |
| `HostsBlock.IndexFromFirst` | internal/cli/hosts.go:176-180 | the index is that of the first occurrence, or -1 exactly when there is none |
| `HostsBlock.OccursAroundNewline` | internal/cli/hosts.go:85-87 | a pattern without a newline never straddles one |
| `HostsBlock.OneBlock` | internal/cli/hosts.go:85-87 | after adding to a body without sentinels each sentinel occurs exactly once |
| `HostsBlock.TrimmedNewlines` | internal/cli/hosts.go:188 | exactly the trailing newlines are taken off |
| `HostsBlock.StripsIff` | internal/cli/hosts.go:175-190 | something is removed exactly when both sentinels occur |
| `HostsBlock.StripLength` | internal/cli/hosts.go:175-190 | the text gets shorter exactly when the begin sentinel starts before the end sentinel ends; otherwise the stretch between them is doubled |
| `HostsBlock.RemoveDoubles` | internal/cli/hosts.go:175-190 | a concrete body that removal makes longer |
| `HostsBlock.CleanAfterRemoveIff` | internal/cli/hosts.go:175-190 | removal leaves no sentinel exactly when the sentinels are in order, none follows and none is put together at the cut |
| `HostsBlock.NoStraddleAtLine` | internal/cli/hosts.go:175-190 | none can be put together where the cut meets a line boundary |
| `HostsBlock.RemoveAfterAdd` | internal/cli/hosts.go:75-130 | on a body without sentinels, removing what was added restores the body with trailing newlines normalised to one |
| `HostsBlock.RemoveAfterAddIff` | internal/cli/hosts.go:75-130 | on every body without a whole block that holds exactly when there is no stray sentinel |
| `HostsBlock.StaleBegin` | internal/cli/hosts.go:75-130 | beside a stale begin sentinel everything from it on is deleted |
| `HostsBlock.StaleEnd` | internal/cli/hosts.go:75-130 | beside a stale end sentinel the block stays and what follows the sentinel is doubled |
| `HostsBlock.RemoveAfterReplaceIff` | internal/cli/hosts.go:75-130 | on every body with a block, adding first changes nothing about what removing leaves exactly when adding does nothing or no stray sentinel is left |
| `HostsBlock.TwoBlocks` | internal/cli/hosts.go:75-130 | removing one block never cancels out against one added behind another |
| `HostsBlock.UserLineLost` | internal/cli/hosts.go:75-130 | a concrete body whose user line disappears |
| `HostsBlock.BeforeHashSplits` | internal/cli/hosts.go:155 | the part of a line before its first number sign |
| `HostsBlock.FieldsConcat` | internal/cli/hosts.go:155 | white space separates fields, whatever stands before and after it |
| `HostsBlock.FieldsOfWord` | internal/cli/hosts.go:155 | a stretch without white space is one field |
| `HostsBlock.FoldIff` | internal/cli/hosts.go:160 | which characters match one of a host name without regard to case |
| `HostsBlock.LineMapsIff` | internal/cli/hosts.go:155-163 | a line maps a name exactly when 127.0.0.1 is its first field and the name, in whatever case, a later one |
| `HostsBlock.MapsIff` | internal/cli/hosts.go:152-166 | a name is mapped exactly when some line maps it and no line up to that one is longer than 65535 bytes |
| `HostsBlock.WidthIsLeast` | internal/cli/hosts.go:153 | a code point counts as many bytes as the shortest UTF-8 sequence that can carry it |
| `HostsBlock.HasHostMapping` | internal/cli/hosts.go:152-166 | the two loops find the name exactly then |
| `HostsBlock.EntryMaps` | internal/cli/hosts.go:152-166 | a written entry line is recognised as mapping its own name |
| `HostsBlock.VisibleIff` | internal/cli/hosts.go:152-166 | after adding, a name is visible exactly when the scanner can read the whole body or the body maps it itself |
| `HostsBlock.HostsAdd` | internal/cli/hosts.go:75-87 | computes the new body, and all four names are visible in it whenever the kept part is scannable |
| `HostsBlock.AddIdempotentIff` | internal/cli/hosts.go:81-87 | adding twice is adding once exactly when the body is scannable, maps all names itself or ends in one newline |
| `HostsBlock.AddTwiceDiffers` | internal/cli/hosts.go:81-87 | a concrete body on which adding twice differs |
| `ReplyForest.Group` | web/timekeeper.js:2538-2549 | the loop collects, in list order, the replies of every known parent and the roots |
| `ReplyForest.SortSorted` | web/timekeeper.js:2550-2552 | the order is sorted and a permutation |
| `ReplyForest.FollowingIsSorted` | web/timekeeper.js:2550-2552 | the rendered order of siblings is the sorted group, there being only one such order |
| `ReplyForest.ChainUnique` | web/timekeeper.js:2541-2547 | a message is reached from a root in only one way |
| `ReplyForest.CardsDiffer` | web/timekeeper.js:2533 | below any message no message is rendered twice |
| `ReplyForest.ParentFirst` | web/timekeeper.js:2533 | every card comes after its parent's card, one level deeper |
| `ReplyForest.SiblingsOrdered` | web/timekeeper.js:2533-2553 | wherever their subtrees end, replies to one message appear by creation and ID, oldest first, and roots by update and ID, newest first |
| `ReplyForest.RenderedIff` | web/timekeeper.js:2533-2554 | a message is rendered exactly when its parent links lead to a root |
| `ReplyForest.AllRenderedIff` | web/timekeeper.js:2533-2554 | every message is rendered exactly when the parent links are acyclic |
| `ReplyForest.SelfReplyIsHidden` | web/timekeeper.js:2541-2547 | a concrete message, its own parent, that is never rendered |
| `ReplyForest.ForestIsWellLaidOut` | web/timekeeper.js:2533-2554 | each message at most once, roots at depth zero with later updates first, replies after and one below their parent with earlier creation first, the ID deciding between equals |
| `ReplyForest.RenderCard` | web/timekeeper.js:2533 | the recursion over the sorted map ends and renders the message and everything below it as specified |
| `ReplyForest.RenderMessages` | web/timekeeper.js:2536-2554 | grouping, sorting and recursing together render exactly the specified cards, laid out that way |

## Left out

- `buildHunksFromTrace` and `countLineEdits`: nothing in the repository produces the trace they read.
- Cache admission (`admitLocked`, the doorkeeper, the window size): no operation uses it. The sketch increment inside `Set` does not touch the ring and is modelled on its own.
- Hashing, agent namespacing, shard routing, locks and hit statistics; the key-length guards of `Get`, `GetWithTTL` and `Delete`, which return before the shard is touched.
- The conversion of a TTL duration to 32-bit seconds: seconds and clock readings are inputs. Maximum key sizes above 65535 and maximum value sizes of 2^32 or more, which the stored widths cannot hold.
- Sketch.constructor: capacities for which the width loop does not end (`WidthLoopStops`), and negative ones.
- Masking with `width - 1` is written as the remainder by the width, a power of two.
- Desktop status texts, notifications, window calls and the failure text of a startup; each session call is one step.
- In the editor: switching, loading and restoring files while a save runs, the boolean `saveFile` returns, the version list and the lanes of the history timeline.
- The version store is only its compare-and-append contract, and the event store only "the first fifty events above an ID in ascending order".
- Event text formatting, flushing, failing writes and request cancellation of the event stream.
- JSON itself (case-insensitive keys, invalid UTF-8), Go's URL parser and `%q`, write errors of the tunnel, and the wording of core's errors.
- Guardian option parsing, launching the work command, the stuck detector, saving the agent context, sleeping and printing.
- File access, privileges and the path of the hosts file; `hostsStatus`; hosts files that are not valid UTF-8.
- The content of message cards, the collation of time stamps (given as ranks), and message lists with missing or repeated IDs.
- The stores, routing, models and HTTP handlers that only forward to them.
