# viewr verification

A Dafny model of the parts of viewr whose correctness rests on an argument rather than on a
table: the index arithmetic behind Trash undo, the wire protocol between the viewer and its
decode worker, animation playback, crop geometry and quantization, the help-text wrapper, and
the release parsers for PNG files, binaries and the license inventory.

`dafny verify dfyconfig.toml` checks the whole project.

## Layout

| files | subject |
|---|---|
| `TrashRecords`, `TrashQueue`, `TrashRevert`, `TrashRuns`, `Trash`, `TrashSnapshot`, `IndexLists` | Trash undo: pending records, the live playlist, moves on their way and moves that fail, whole sessions, restore batches, the shared Trash listing |
| `Bytes`, `Utf8`, `Protocol`, `ProtocolLaws`, `ProtocolWire`, `FormatRefusal` | integers and text as bytes, the three frame codecs, the frames byte by byte, the format-refusal token |
| `Worker`, `WorkerLaws`, `Session` | the worker loop on streams, and the two processes as state machines over bounded pipes |
| `Playback` | the animation cursor and its catch-up loop |
| `CropPixels`, `CropGeometry`, `Arith` | quantization to pixels, and the rectangle under drags and keyboard steps |
| `TextWrap`, `TextWrapLaws` | the greedy wrapper with hanging indent and overlong tokens, and what its lines look like |
| `Png`, `BinaryTarget`, `BinaryLayout`, `ElfLayout`, `PeLayout`, `MachOLayout` | the PNG writer and checker, the PE, ELF and Mach-O walks, and those formats as they are written |
| `LicenseInventory`, `LicenseGrammar`, `LicenseText`, `LicenseRendering`, `LicenseReparse`, `Sorting` | the inventory parser, the grammar of what it accepts, its comparison, the report template it is generated from, and the round trips between them |
| `Wrappers`, `Whitespace` | `Option`, `Result` and a law of concatenation; white space and words |

Where the program updates something in place, the model is a class or a method with a loop, proved
against a function on values: `Trash.TrashedFile` and `Trash.UndoSession` mutate their records and
playlist, `Protocol`'s readers consume a `Bytes.Source`, `Playback.AnimationPlayback` updates its
cursor, and the parsers move an offset. The lemmas are then about those functions.

## What the proofs show about the code

- Extra polls, however many, do not disturb an animation exactly while at most twice its frame count is due
  (`Playback.PollsTheorem`). Beyond that, `advance` restarts its clock at the poll time, so a poll in
  between changes what is shown later: two frames of 10 ms polled after a second show it
  (`Playback.LatePollIsSensitive`).
- When a move to the Trash fails, it and the moves queued behind it are put back oldest first, each at the
  index it was taken from (crates/viewr/src/app.rs:6633, 5223-5230). Each index counts from the list that the
  earlier moves had already left, so the order comes back exactly when the indices of all but the last move,
  counted from the end of what is left, are 1, 2, 3 and so on up to the middle and back down to 1
  (`TrashRevert.RevertsInOrder`). A lone move always returns (`TrashRevert.LoneMoveReverts`); two return exactly
  when the first took the last entry (`TrashRevert.TwoMovesRevert`), so trashing the first entry twice swaps the
  two (`TrashRevert.FirstEntriesSwap`). Nothing is lost, and pending records keep naming their entries
  (`Trash.UndoSession.AbandonMoves`, over whole sessions `TrashRuns.SessionKeepsEntries`).
- Restoring against one shared Trash listing agrees with listing before every receipt, whatever the Trash holds
  and the platform does, exactly when no two receipts that can be restored carry the same platform id
  (`TrashSnapshot.AgreesExactly`): an item leaves the shared listing even when its restore fails.
- A captured Trash id finds its item again exactly when no second listed item carries the id
  (`TrashSnapshot.CapturedIdFindsItsItem`); a second item from elsewhere, which capture passes over, makes it
  ambiguous (`TrashSnapshot.CapturedIdAmbiguous`).
- The default crop meets the minimum span exactly when the locked aspect, in normalized coordinates, lies
  between 1/40 and 40 (`CropGeometry.DefaultCropIsGood`); a square crop of an image of 41 by 1 pixels does not
  (`CropGeometry.NarrowDefaultCrop`). From a crop that does, no drag or keyboard step can lose it.
- After a stall `advance` shows at most two rounds of frames and then gives the frame it lands on its whole delay
  from the poll (`Playback.AdvanceLands`).
- A decoder whose color profile is out of bounds leaves its request unanswered and ends the session; every other
  request gets its reply (`WorkerLaws.OneRequest`).
- In the PE check `mapped_size` has no effect: the smaller of it and the raw size is always the raw size
  (scripts/release_artifact.py:384-394), so the specification `BinaryTarget.PeMaps` does not mention the
  virtual size.
- The PNG checker's branch for data behind the end marker (scripts/release_artifact.py:318-319) is never
  taken: an end marker that is not the end of the file is refused first. `Png.BoundedPng` proves it dead.

## Model

| member | source | states |
|---|---|---|
| TrashRecords.EveryRecordEndsOnce | crates/viewr/src/curate.rs:293-318 | the records of a batch are, as a multiset, its restored, retryable and dropped records |
| TrashRecords.FailuresSplit | crates/viewr/src/curate.rs:295-316 | the two filters over the failures share them out: none in both, none in neither |
| TrashRecords.AttemptsDecide | crates/viewr/src/curate.rs:293-318 | a record stays pending exactly when its own attempt failed with an operation failure, an occupied destination or denied access, and is given up after the other four errors |
| TrashRecords.PendingAfterRestore | crates/viewr/src/curate.rs:293-318 | after a restore the pending records are those, in order |
| TrashRecords.SortIsAscending | crates/viewr/src/app.rs:1327 | the sort before reinsertion gives the same records in ascending playlist index |
| TrashRecords.RebaseNeverSaturates | crates/viewr/src/curate.rs:320-328 | rebasing by distinct omitted indices subtracts in full: the exact integer rank, never cut at zero |
| TrashRecords.GapCountsLiveBefore | crates/viewr/src/curate.rs:335-342 | a pending index less the pending ones before it is the number of live entries before the slot, and those entries open the playlist |
| TrashRecords.RemovedBelow | crates/viewr/src/curate.rs:343-348 | counting removed live positions below the gap counts exactly the removed base slots below the record |
| TrashRecords.RemovalsRebaseExactly | crates/viewr/src/curate.rs:330-350 | after removals each record has its index in the base list without the removed entries; nothing saturates |
| TrashRecords.ReinsertionPoint | crates/viewr/src/app.rs:6963-6966 | the computed insertion index is the rank of the record among live entries, and the clamp to the list length is idle |
| TrashRecords.ReinsertFillsSlots | crates/viewr/src/app.rs:6963-6978 | inserting the sorted restored records one by one leaves the base list less exactly the failed slots |
| TrashRecords.RestoreKeepsInv | crates/viewr/src/app.rs:6942-7006 | finishing a restore batch with any mixture of results keeps the live list equal to a base list less the pending slots |
| TrashRecords.RemoveKeepsInv | crates/viewr/src/app.rs:1366-1375 | removing any distinct live positions keeps it |
| TrashRecords.TrashKeepsInv | crates/viewr/src/app.rs:6653-6658 | an entry trashed from the settled list starts a new pending list that keeps it; `TrashQueue` reduces a move submitted earlier to this |
| TrashRecords.StepKeepsInv | crates/viewr/src/curate.rs:283-350 | every event keeps it, for the base list without the slots given up |
| TrashRecords.StepConserves | crates/viewr/src/curate.rs:283-350 | an event takes out of the base list exactly the paths dropped, removed or superseded |
| TrashRecords.RunKeepsOrder | crates/viewr/src/curate.rs:283-350 | over any run the base list is the original in its order, short of exactly what the run gave up |
| TrashRecords.NothingPending | crates/viewr/src/curate.rs:283-350 | once nothing is pending the live list itself is the original order less exactly that |
| TrashRecords.RemovalSplits | crates/viewr/src/curate.rs:404-416 | removal by path shares the list out between what stays and what is reported |
| TrashRecords.RemovalByPath | crates/viewr/src/curate.rs:404-416 | with distinct paths, removing by path is removing by position |
| TrashQueue.SubmitKeepsSettled | crates/viewr/src/app.rs:5123-5147 | taking an entry out at submission leaves the settled list, with all moves put back, as it was |
| TrashQueue.FinishTakesOut | crates/viewr/src/app.rs:6653-6658 | the oldest move, once done, has left the settled list at the index recorded when it was submitted |
| TrashQueue.FinishSteps | crates/viewr/src/app.rs:6652-6666 | writing the undo record, or rebasing the previous one, when a move finishes is trashing or removing the entry from the settled list at that moment |
| TrashRevert.RevertsInOrder | crates/viewr/src/app.rs:5223-5230 | putting any number of failed moves back oldest first restores the list if and only if the recorded indices of all but the last, counted from the end of what is left, are 1, 2, 3 up to the middle and back down to 1 |
| TrashRevert.LoneMoveReverts | crates/viewr/src/app.rs:1976-2000 | a failed move with none behind it always goes back where it was |
| TrashRevert.TwoMovesRevert | crates/viewr/src/app.rs:5223-5230 | of two failed moves, both go back where they were if and only if the first took the last entry |
| TrashRevert.FirstEntriesSwap | crates/viewr/src/app.rs:5223-5230 | two moves of the first entry each, for which the order is lost |
| TrashRevert.RevertLosesNothing | crates/viewr/src/app.rs:5223-5230 | whatever the order, every entry comes back exactly once |
| TrashRevert.FailureKeepsInv | crates/viewr/src/app.rs:5223-5230 | after a failure the playlist is a base list of the same entries less the pending slots, the same base list if the indices are in order |
| TrashRuns.Simulates | crates/viewr/src/app.rs:5123-5147 | every event of a session is one step of the settled list or leaves it as it was; only a failure may reorder it |
| TrashRuns.OneEvent | crates/viewr/src/app.rs:6625-6666 | an event takes exactly what it gives up out of the base list and keeps the order of the rest, unless it is a failure whose indices are not in order |
| TrashRuns.SessionKeepsEntries | crates/viewr/src/app.rs:5123-5230 | over every session of submissions, finishes, failures, restores and removals the original list is the base list and what was given up; the order is kept when every failure's indices are in order |
| TrashRuns.SessionAtRest | crates/viewr/src/app.rs:6942-7006 | with no move on its way and nothing pending, that holds of the playlist itself |
| Trash.RebaseTrashedFileIndices | crates/viewr/src/curate.rs:320-328 | the loop over mutable records gives every record the index the value functions give it, and changes nothing else of it |
| Trash.RebaseAfterCurrentRemovals | crates/viewr/src/curate.rs:330-350 | the same for removals, with the pending indices read before any record changes |
| Trash.TrashRestoreOutcome.RestoredIndex | crates/viewr/src/curate.rs:284-291 | the insertion index counts the failures below the record |
| Trash.TrashRestoreOutcome.SortRestored | crates/viewr/src/app.rs:1327 | the restored list is in stable ascending order and the failures are untouched |
| Trash.TrashRestoreOutcome.TakeRetryableRecords | crates/viewr/src/curate.rs:293-318 | the failures are drained; the same record objects that may be retried come back, rebased by the dropped ones |
| Trash.PartitionedFiles | crates/viewr/src/curate.rs:722-737 | the files pushed to the two lists have the values the specification partitions |
| Trash.PartitionKeepsFiles | crates/viewr/src/curate.rs:722-737 | every file object of a batch lands in exactly one list |
| Trash.RestoreTrashBatchWith | crates/viewr/src/curate.rs:722-737 | one attempt per record in order, each with the state the previous one left; results sorted accordingly; no file lost |
| Trash.RestoreTrashBatchWithSharedState | crates/viewr/src/curate.rs:749-767 | a failed preparation fails every record with its error and restores none |
| Trash.RemoveFromPlaylist | crates/viewr/src/curate.rs:404-416 | the kept and the removed paths, both in list order |
| Trash.UndoSession.ReinsertRestored | crates/viewr/src/app.rs:6963-6978 | the playlist after inserting every restored record at its computed place |
| Trash.UndoSession.ApplyOutcome | crates/viewr/src/app.rs:6942-7006 | the playlist and the pending records after an outcome; the pending ones are old record objects |
| Trash.UndoSession.FinishTrashRestore | crates/viewr/src/app.rs:6942-7006 | with no move on its way, the session stays valid and makes exactly the restore step of the specification |
| Trash.UndoSession.UndoTrash | crates/viewr/src/curate.rs:722-737 | a whole undo: attempt every pending record, then the restore step for the results |
| Trash.UndoSession.RemoveCurrent | crates/viewr/src/app.rs:1366-1375 | removing live entries is the removal step; the pending objects stay the same ones |
| Trash.UndoSession.SubmitMove | crates/viewr/src/app.rs:5123-5147 | the entry leaves the playlist and its move is queued with its index; the settled list and the pending records stay |
| Trash.UndoSession.FinishMove | crates/viewr/src/app.rs:6652-6666 | a finished move replaces the previous undo, or rebases it in place when no receipt was captured: exactly the specified step of the settled list |
| Trash.UndoSession.AbandonMoves | crates/viewr/src/app.rs:5223-5230 | the playlist after putting failed moves back oldest first; the session stays valid, loses no entry, and is unchanged when the indices are in order |
| TrashSnapshot.Listing.TakeExactTrashItem | crates/viewr/src/curate.rs:856-876 | takes the only item with the id at the original path, or reports missing, ambiguous or invalid and takes nothing |
| TrashSnapshot.RemainingItems | crates/viewr/src/curate.rs:875 | `swap_remove` takes out exactly the selected item, in any order |
| TrashSnapshot.LookupDependsOnMatches | crates/viewr/src/curate.rs:861-874 | selection depends only on the items with the wanted id, not on the order of the listing |
| TrashSnapshot.RestoreReaches | crates/viewr/src/curate.rs:808-825 | a receipt reaches the platform if and only if one listed item alone has its id, lies at its original path and is its object; the platform's answer is the result, and only its success takes the item out of the Trash; every other receipt is refused with its reason and changes nothing |
| TrashSnapshot.FreshRestoreReaches | crates/viewr/src/curate.rs:795-797 | the same of a restore that lists the Trash itself |
| TrashSnapshot.RestoredExactly | crates/viewr/src/curate.rs:808-825 | a restore succeeds if and only if its receipt identifies a listed item and the platform restores that item |
| TrashSnapshot.OneReceiptAgrees | crates/viewr/src/curate.rs:808-825 | one restore against the shared listing gives the result and file system of a restore against a fresh listing, and keeps the listing usable |
| TrashSnapshot.SharedListingAgrees | crates/viewr/src/curate.rs:701-767 | a whole batch against the shared listing gives every receipt the result, and leaves the Trash and file system, of relisting, for receipts with distinct ids |
| TrashSnapshot.SharedIdDiffers | crates/viewr/src/curate.rs:808-825 | for any receipts, any two of which share an id, the later one misses its item in the shared listing of a Trash of one item and not in a fresh listing |
| TrashSnapshot.AgreesExactly | crates/viewr/src/curate.rs:701-767 | agreement on every Trash, listing order and platform holds if and only if no two receipts that can be restored share an id |
| TrashSnapshot.ClassifyTrashItemId | crates/viewr/src/curate.rs:1042-1067 | the id of the only item at the path with the moved object; else ambiguous, mismatched or no candidate |
| TrashSnapshot.CaptureExactly | crates/viewr/src/curate.rs:1042-1067 | capture is ambiguous exactly with two candidates, has no candidate exactly with nothing at the path, mismatches exactly with only other objects there, and otherwise gives the one candidate's id |
| TrashSnapshot.CapturedIdFindsItsItem | crates/viewr/src/curate.rs:1042-1067 | a captured id selects its own item again if and only if no other listed item has it |
| TrashSnapshot.CapturedIdAmbiguous | crates/viewr/src/curate.rs:1042-1067 | a listing of two items, one of them no candidate, whose captured id is ambiguous |
| TrashSnapshot.CapturedReceiptRestores | crates/viewr/src/curate.rs:1020-1031 | what was captured can be undone: a receipt with the captured id restores its item from any later listing of the Trash if and only if no second item has the id and the platform succeeds |
| Utf8.DecodeEncoded | crates/viewr-protocol/src/lib.rs:296-297 | every string survives UTF-8 (section 3 of RFC 3629) |
| Utf8.EncodeDecoded | crates/viewr-protocol/src/lib.rs:296-297 | bytes that decode are exactly the encoding of the result: no overlong or surrogate forms |
| Protocol.WriteDecodeRequest | crates/viewr-protocol/src/lib.rs:208-243 | writes the whole frame exactly when format and length are allowed, and otherwise nothing, with the reason |
| Protocol.ReadDecodeRequest | crates/viewr-protocol/src/lib.rs:250-315 | reads one request and leaves the rest of the stream; every malformed header has its own error, and only an empty stream is a clean end |
| Protocol.WriteWorkerResponse | crates/viewr-protocol/src/lib.rs:330-416 | writes the whole frame exactly for an allowed response, and otherwise nothing, with the reason |
| Protocol.ReadWorkerResponse | crates/viewr-protocol/src/lib.rs:434-483 | reads one response, metadata and error text checked, and leaves the rest of the stream |
| Protocol.WriteAck | crates/viewr-protocol/src/lib.rs:564-566 | appends the acknowledgement |
| Protocol.ReadAck | crates/viewr-protocol/src/lib.rs:573-583 | consumes exactly an acknowledgement or reports it missing or wrong |
| ProtocolLaws.RequestRoundTrip | crates/viewr-protocol/src/lib.rs:208-315 | a written request followed by any bytes reads back as itself and leaves those bytes |
| ProtocolLaws.RequestCanonical | crates/viewr-protocol/src/lib.rs:250-315 | accepted request bytes are exactly what the writer emits; only the empty stream gives no request |
| ProtocolLaws.RequestTruncated | crates/viewr-protocol/src/lib.rs:250-315 | every non-empty strict prefix of a request frame is reported as truncated |
| ProtocolLaws.FramesSplitOneWay | crates/viewr-protocol/src/lib.rs:250-315 | a stream of request frames splits in one way only |
| ProtocolLaws.CicpRoundTrip | crates/viewr-protocol/src/lib.rs:524-539 | coded color metadata survives its seven bytes |
| ProtocolLaws.ProfileCanonical | crates/viewr-protocol/src/lib.rs:506-516 | accepted color metadata is exactly what the writer emits for the profile |
| ProtocolLaws.PixelStreamCanonical | crates/viewr-protocol/src/lib.rs:485-522 | an accepted pixel-stream payload is exactly the written one, of allowed dimensions |
| ProtocolLaws.ResponseRoundTrip | crates/viewr-protocol/src/lib.rs:330-483 | a written response followed by any bytes reads back as itself and leaves those bytes |
| ProtocolLaws.ResponseCanonical | crates/viewr-protocol/src/lib.rs:434-539 | accepted response bytes are exactly what the writer emits, ICC, CICP and error text included |
| ProtocolLaws.ResponseTruncated | crates/viewr-protocol/src/lib.rs:434-461 | every strict prefix of a response frame is reported as truncated |
| ProtocolLaws.AckCanonical | crates/viewr-protocol/src/lib.rs:573-583 | an acknowledgement is read if and only if its four bytes open the stream |
| ProtocolWire.RequestBytes | crates/viewr-protocol/src/lib.rs:208-243 | the bytes of a request frame, field by field, lengths with the least significant byte first |
| ProtocolWire.ResponseBytes | crates/viewr-protocol/src/lib.rs:330-416 | the bytes of a response frame, its shape, color tag and color metadata field by field |
| ProtocolWire.ShapeExactly | crates/viewr-protocol/src/lib.rs:184-201 | a shape is allowed if and only if both sides and the pixel count are in bounds, and takes four bytes a pixel |
| ProtocolWire.RequestDecided | crates/viewr-protocol/src/lib.rs:250-315 | once a request is read or refused, more bytes do not change the verdict |
| ProtocolWire.ResponseDecided | crates/viewr-protocol/src/lib.rs:434-483 | likewise for a response |
| FormatRefusal.RefusalFoundFirst | crates/viewr-protocol/src/lib.rs:136-145 | a line that opens with prefix, token and space names that refusal whatever follows, further prefixes included |
| FormatRefusal.RefusalRoundTrip | crates/viewr-protocol/src/lib.rs:130-145 | no rewording of the detail hides a refusal |
| FormatRefusal.ParseExactly | crates/viewr-protocol/src/lib.rs:136-145 | a line names a refusal if and only if, letter case aside, the first word between its first prefix and the next is that refusal's token |
| Worker.WorkerError | crates/viewr-decode/src/main.rs:143-160 | any message becomes a response the writer accepts, its text the longest cleaned prefix that fits |
| Worker.LongestFits | crates/viewr-decode/src/main.rs:151-154 | that prefix fits the byte limit and one more character would not |
| Worker.BoundedTextIsValid | crates/viewr-decode/src/main.rs:143-160 | the bounded text is never empty, too long or with control characters |
| Worker.RefusalSurvivesBounding | crates/viewr-decode/src/main.rs:143-160 | cleaning and truncating an error line never hides a format refusal |
| Worker.CopyStridedRgba | crates/viewr-decode/src/main.rs:172-209 | succeeds exactly when shape, stride and length allow, with exactly four bytes a pixel; each failure has its message |
| Worker.PackedRow | crates/viewr-decode/src/main.rs:199-201 | row y of the packed pixels is row y of the padded data without its padding |
| Worker.Respond | crates/viewr-decode/src/main.rs:105-121 | a reply is written whole, its pixels behind its header, or not at all |
| Worker.ServeOne | crates/viewr-decode/src/main.rs:77-134 | one turn of the loop writes what the transcript of the whole input begins with |
| Worker.Serve | crates/viewr-decode/src/main.rs:77-134 | for every input the loop ends and writes exactly its transcript |
| WorkerLaws.AnswerIsProper | crates/viewr-decode/src/main.rs:162-170 | validation makes an answer's pixels match its header; it can be sent if and only if the decoder's profile is in bounds |
| WorkerLaws.ExchangeKeepsInStep | crates/viewr-decode/src/main.rs:77-134 | after any conforming exchange each request has its one reply in order and the stream is in step for whatever follows |
| WorkerLaws.CutShort | crates/viewr-decode/src/main.rs:78-88 | a request cut short after any exchange gets one error response and ends the session |
| WorkerLaws.RepliesRoundTrip | crates/viewr-decode/src/main.rs:3-7 | a parent that reads replies gets every one back; no pixel byte is taken for a header |
| WorkerLaws.ParentReadsEveryAnswer | crates/viewr-decode/src/main.rs:3-7 | what the worker wrote for a conforming parent reads as the answer to each request, with nothing left over |
| WorkerLaws.AnswerIsRight | crates/viewr-decode/src/main.rs:95-131 | every request gets the reply it must: the probe its own, a decoded image its width, height, profile and pixels, a failure or a wrong buffer its bounded reason, a format without a decoder its refusal |
| WorkerLaws.ParentReadsRightReplies | crates/viewr-decode/src/main.rs:77-134 | the parent of a conforming session reads, for every request in order, the reply that request must get |
| WorkerLaws.OneRequest | crates/viewr-decode/src/main.rs:77-134 | one request on its own reads back as that reply; it stays unanswered if and only if the decoder's profile is out of bounds |
| WorkerLaws.OutputIsWholeReplies | crates/viewr-decode/src/main.rs:77-134 | whatever bytes arrive, the output is a sequence of whole replies |
| Session.ActionKeepsInv | crates/viewr-decode/src/main.rs:3-7 | every byte either process moves through either pipe keeps the two in step |
| Session.NeverStuck | crates/viewr-decode/src/main.rs:77-134 | until both are done some action is possible, whatever the pipe capacity: no deadlock |
| Session.ActionShrinks | crates/viewr-decode/src/main.rs:77-134 | every action uses up some of a finite amount of work: no livelock |
| Session.ReachableInv | crates/viewr-decode/src/main.rs:77-134 | the invariant and the bound hold in every state of every run |
| Session.EveryRunDelivers | crates/viewr-decode/src/main.rs:77-134 | however the two processes are scheduled, nothing is stuck, and what the parent has read is always the answers to its first requests in order, each the reply its request must get; a stopped run has delivered all and left both pipes empty |
| Playback.NormalizedFrameDelay | crates/viewr/src/animated.rs:301-310 | every container delay, a zero denominator included, becomes one between 10 ms and 1 h |
| Playback.DelayIsExact | crates/viewr/src/animated.rs:301-310 | inside the range it is the exact quotient rounded down; outside, the nearer end |
| Playback.EventKeepsValid | crates/viewr/src/animated.rs:354-439 | every operation keeps the frame in range, a deadline exactly while playing, finite playback unfinished while playing; after an advance nothing is overdue |
| Playback.Play | crates/viewr/src/animated.rs:354-439 | so does every interleaving of operations from the start |
| Playback.ToggleResumes | crates/viewr/src/animated.rs:354-366 | toggling a finished playback is a fresh start; pausing and resuming shows the same frame for its whole delay |
| Playback.StepsUndo | crates/viewr/src/animated.rs:374-382 | a step moves by its delta or not at all, never wraps, and the opposite step undoes it |
| Playback.EarlierPollSplits | crates/viewr/src/animated.rs:389-414 | catching up in two polls is catching up in one while the bound is not reached |
| Playback.FewDueIsInsensitive | crates/viewr/src/animated.rs:389-414 | with at most twice the frame count due, an earlier poll changes neither the state nor whether a change is reported |
| Playback.ManyDueIsSensitive | crates/viewr/src/animated.rs:389-414 | with more due, a poll at the first deadline changes what follows |
| Playback.PollingTheorem | crates/viewr/src/animated.rs:389-414 | insensitivity to extra polls holds if and only if at most twice the frame count is due |
| Playback.LatePollIsSensitive | crates/viewr/src/animated.rs:389-414 | a concrete animation and poll time beyond the bound |
| Playback.PollsTheorem | crates/viewr/src/animated.rs:389-414 | insensitivity to any list of earlier polls holds if and only if at most twice the frame count is due |
| Playback.ScheduleHasNoDrift | crates/viewr/src/animated.rs:395-408 | each frame of each cycle ends at the start time plus the delays of every frame shown |
| Playback.FiniteScheduleStops | crates/viewr/src/animated.rs:416-428 | a finite schedule stops after its last cycle on the last frame |
| Playback.FiniteRunChanges | crates/viewr/src/animated.rs:389-428 | over any polls, a finite run that has stopped made exactly repeats times frames minus one changes and shows the last frame |
| Playback.DueAdvanceProgresses | crates/viewr/src/animated.rs:389-414 | an advance with a frame due shows a later frame or stops |
| Playback.DueRunStops | crates/viewr/src/animated.rs:389-428 | polled at or after each deadline, finite playback has stopped within repeats times frames polls, after exactly one change fewer, on the last frame |
| Playback.DueExactly | crates/viewr/src/animated.rs:395-409 | more than k frames are due if and only if playback still runs after k of them and its deadline has come |
| Playback.AdvanceLands | crates/viewr/src/animated.rs:389-414 | an advance shows every due frame up to twice the frame count; with more due, the frame it lands on is shown for its whole delay from now; it reports whether the shown frame changed on the way |
| Playback.LateStart | crates/viewr/src/animated.rs:389-414 | polled later than two rounds after its start, an animation shows frame 0 of the third cycle for its whole delay |
| Playback.AnimationPlayback.ToggleAt | crates/viewr/src/animated.rs:354-366 | the object makes exactly the toggle the lemmas are about and stays valid |
| Playback.AnimationPlayback.PauseNow | crates/viewr/src/animated.rs:368-371 | likewise for a pause |
| Playback.AnimationPlayback.Step | crates/viewr/src/animated.rs:374-382 | likewise for a step, with its report |
| Playback.AnimationPlayback.MoveOne | crates/viewr/src/animated.rs:416-428 | likewise for one frame on, the cycle counter saturating |
| Playback.AnimationPlayback.AdvanceTo | crates/viewr/src/animated.rs:389-414 | the bounded loop is the specified catch-up; no frame is overdue afterwards |
| CropPixels.GreatestCommonDivisor | crates/viewr/src/crop.rs:125-132 | the loop yields a common divisor that every common divisor divides |
| CropPixels.Gcd | crates/viewr/src/crop.rs:125-132 | the same for the value the specifications use; positive unless both terms are zero |
| CropPixels.ReducedIsCoprime | crates/viewr/src/crop.rs:121-122 | the reduced terms have no common divisor but one |
| CropPixels.ReducedKeepsRatio | crates/viewr/src/crop.rs:121-122 | reducing keeps the ratio exactly |
| CropPixels.MaximumScaleIsGreatest | crates/viewr/src/crop.rs:588 | a multiple of the ratio fits the image if and only if it is at most the maximum scale |
| CropPixels.ScaleInRange | crates/viewr/src/crop.rs:592-598 | the scale is the possible one nearest to the selection: within half a unit, or at the end of the range it lies beyond |
| CropPixels.OriginFits | crates/viewr/src/crop.rs:547-553 | a centered extent stays inside and is off its exact place by at most half a pixel unless a border stops it |
| CropPixels.LockedRectIsExact | crates/viewr/src/crop.rs:588-610 | a locked crop exists if and only if the reduced ratio fits the image; it lies inside and has exactly the ratio |
| CropPixels.LockedRectIsCentered | crates/viewr/src/crop.rs:601-604 | it sits on the center of the selection to half a pixel, or against the border it would cross |
| CropPixels.LockedCrop | crates/viewr/src/crop.rs:559-611 | through the public function: a crop exists if and only if the reduced ratio fits; it is a whole multiple of the ratio at the possible scale nearest to the selection, inside the image, on the selection's center |
| CropPixels.FixedCrop | crates/viewr/src/crop.rs:110-123 | under a fixed ratio of w to h a crop exists if and only if the ratio in lowest terms fits the image, and its width times h is its height times w |
| CropPixels.SelectedScaleIsGreatest | crates/viewr/src/crop.rs:592-596 | the scale before rounding is the greatest at which the ratio still fits the selection |
| CropPixels.NormalizedSelects | crates/viewr/src/crop.rs:568-571 | whatever corners a selection is given by, it is the part of the unit square between them |
| CropPixels.CropIsInside | crates/viewr/src/crop.rs:559-611 | any crop lies inside the image; an empty image or a coordinate that is not finite gives none |
| CropPixels.OriginalAlwaysFits | crates/viewr/src/crop.rs:559-611 | the original ratio always fits, is kept exactly, and its greatest scale is the gcd of the sides |
| CropPixels.OutwardSpanCovers | crates/viewr/src/crop.rs:573-578 | an unlocked axis covers the selection with the fewest pixels that do |
| CropPixels.UnlockedCrop | crates/viewr/src/crop.rs:572-586 | without a ratio, or with a zero term in a fixed one, the crop covers the selection with the fewest pixels, and is missing if and only if an axis is empty on a pixel boundary |
| CropGeometry.FittedExtent | crates/viewr/src/crop.rs:322-340 | scaling into the room keeps the exact aspect and both minimum spans and yields the smallest of the wish and the limits |
| CropGeometry.SmallestReaching | crates/viewr/src/crop.rs:322-340 | the fitted extent is the smallest of its aspect that spans the wish, or fills the room on one axis |
| CropGeometry.DragKeepsCrop | crates/viewr/src/crop.rs:253-447 | a drag with the pointer anywhere keeps the crop inside, at the exact aspect and wide enough, and its anchor in place |
| CropGeometry.FreeDragFollows | crates/viewr/src/crop.rs:273-292 | an unlocked drag puts the handle's edges at the pointer, short only of the minimum span, and moves no other |
| CropGeometry.LockedDragFollows | crates/viewr/src/crop.rs:294-447 | a locked drag makes the smallest crop from the anchor that reaches the pointer, or one that fills the room |
| CropGeometry.DragFollows | crates/viewr/src/crop.rs:253-271 | through the public function: the pointer counts at its nearest point of the image, and the drag follows it there, unlocked or locked |
| CropGeometry.AdjustKeepsCrop | crates/viewr/src/crop.rs:449-501 | a keyboard move or resize keeps a good crop good, and a move keeps its size |
| CropGeometry.MoveShifts | crates/viewr/src/crop.rs:464-468 | a move shifts as asked or stops at the border, and the opposite move undoes one that stayed inside |
| CropGeometry.ResizeKeepsCenter | crates/viewr/src/crop.rs:470-501 | a resize keeps the center unless a border stops it; unlocked, it changes the spans as asked |
| CropGeometry.LockedResizeFollows | crates/viewr/src/crop.rs:470-489 | a locked keyboard resize follows the axis with the larger step: no allowed crop of the aspect comes nearer on it to the span asked for |
| CropGeometry.SortedFirst | crates/viewr/src/crop.rs:449-468 | a drag, a keyboard step and a fit start from the sorted rectangle clamped to the image |
| CropGeometry.UnlockedStepIsGood | crates/viewr/src/crop.rs:449-501 | without a locked ratio a keyboard step makes a good crop of any rectangle |
| CropGeometry.EditsKeepCrop | crates/viewr/src/crop.rs:253-501 | so does any sequence of drags and keyboard steps |
| CropGeometry.FittedCrop | crates/viewr/src/crop.rs:177-208 | a fitted crop keeps the center and the exact aspect, stays in its bounds and fills one axis of them; unlocked or with empty bounds it is the bounds |
| CropGeometry.DefaultCropIsGood | crates/viewr/src/crop.rs:164-175 | the default crop is wide enough if and only if the aspect lies between 1/40 and 40; it is centered and leaves a tenth free on both sides of one axis |
| CropGeometry.NarrowDefaultCrop | crates/viewr/src/crop.rs:164-175 | an image whose default square crop is narrower than the minimum span |
| CropGeometry.PixelRatioIsExact | crates/viewr/src/crop.rs:144-162 | a crop at the locked normalized aspect has exactly the asked-for ratio in pixels |
| CropGeometry.OriginalRatioIsExact | crates/viewr/src/crop.rs:144-162 | at the original ratio a crop has exactly the ratio of the image's sides in pixels |
| CropGeometry.LockedExactly | crates/viewr/src/crop.rs:144-162 | the aspect is locked if and only if the image has pixels and the ratio is the original one or has two terms that are not zero |
| TextWrap.DescriptionColumn | crates/viewr/src/cli.rs:649-669 | an aligned description starts behind at least two spaces and leaves it at least ten columns |
| TextWrap.FindCut | crates/viewr/src/cli.rs:683-702 | one window's cut is behind its last separator, or at the budget |
| TextWrap.SplitOverlong | crates/viewr/src/cli.rs:676-710 | the loop yields the specified pieces |
| TextWrap.NextCutBeyond | crates/viewr/src/cli.rs:687-702 | because a cut takes the last separator of its window, the next piece reaches past that window |
| TextWrap.PiecesStack | crates/viewr/src/cli.rs:676-710 | the pieces make up the token, each fits the budget, and no two neighbours fit it together |
| TextWrap.FillLines | crates/viewr/src/cli.rs:729-771 | the work-queue loop ends and produces the greedy lines behind their heads |
| TextWrap.WrapLogicalLine | crates/viewr/src/cli.rs:717-772 | the same for a logical line, the early returns included |
| TextWrap.HangingIndent | crates/viewr/src/cli.rs:717-777 | the first line opens with the head and every further line with as many spaces |
| TextWrap.FillFits | crates/viewr/src/cli.rs:730-771 | no line is wider than the limit |
| TextWrap.FillReadsBack | crates/viewr/src/cli.rs:730-771 | the lines read back as the tokens; inside a token a line ends only if the rest is too long for a line, and then behind its last separator that fits; between tokens only if the next one does not fit |
| TextWrap.PiecesReadBack | crates/viewr/src/cli.rs:756-765 | the pieces of a broken token fill a line each, and only the last shares its line with what follows |
| TextWrap.GreedyIsOptimal | crates/viewr/src/cli.rs:730-771 | when every word fits, no order-preserving grouping into fitting lines has fewer lines |
| TextWrap.WrappedWidths | crates/viewr/src/cli.rs:717-772 | a physical line is at most the larger of the width and the indent plus one |
| TextWrap.FillKeepsText | crates/viewr/src/cli.rs:730-771 | filling keeps every character of the words in order |
| TextWrap.WrappingKeepsInk | crates/viewr/src/cli.rs:717-777 | wrapping a line keeps every non-whitespace character in order |
| TextWrap.WrapText | crates/viewr/src/cli.rs:780-790 | the loop over the text's lines yields the wrapped text |
| TextWrap.WrapTextKeepsInk | crates/viewr/src/cli.rs:780-790 | wrapping a text keeps every non-whitespace character in order |
| TextWrap.CutIsGood | crates/viewr/src/cli.rs:687-702 | a token is cut behind the last separator of its window, or at the budget when there is none, and nowhere else |
| TextWrapLaws.WordsOfText | crates/viewr/src/cli.rs:725 | white space separates words and a stretch without any is one word |
| TextWrapLaws.JoinReadsBack | crates/viewr/src/cli.rs:774-777 | joined words have single spaces between them and read back as themselves |
| TextWrapLaws.HeadHangs | crates/viewr/src/cli.rs:633-672 | a wide line hangs at its status tag; or, in a row indented by two or more, at the end of the first gap of two or more spaces if that leaves ten columns; or at its leading spaces; and nowhere else |
| TextWrapLaws.WrappedLineReads | crates/viewr/src/cli.rs:717-777 | the physical lines of a wide line: the first opens with the head, the others with exactly as many spaces; their words fit the room and read back as the line's words, broken only where they must be; a line without words loses the white space at its end |
| TextWrapLaws.RowByRow | crates/viewr/src/cli.rs:780-790 | the first line break ends the first row, whose physical lines each get a break of their own; a row that is not too wide stays whole |
| Png.CrcStreams | scripts/performance_gate.py:151-152 | a checksum continued over the payload is the checksum of kind and payload together |
| Png.EndMarkerBytes | scripts/performance_gate.py:174 | the end marker is the twelve bytes every PNG file ends with, checksum AE426082 included |
| Png.ChunkRoundTrip | scripts/release_artifact.py:295-306 | a written chunk reads back whatever follows (section 3.2 of RFC 2083) |
| Png.ChunkCanonical | scripts/release_artifact.py:295-306 | a chunk that reads is byte for byte a written one |
| Png.ReadChunkAt | scripts/release_artifact.py:295-306 | one chunk, or the fault found first |
| Png.JudgeChunk | scripts/release_artifact.py:308-319 | header first and sound, end marker empty and last |
| Png.BoundedPng | scripts/release_artifact.py:283-326 | the walk returns the file or the fault found first; data behind the end marker is never reached |
| Png.AcceptedExactly | scripts/release_artifact.py:283-326 | a file is accepted if and only if it is the signature and written chunks, a sound header first and one empty end marker last; its chunks are unique |
| Png.FirstFaultReported | scripts/release_artifact.py:293-326 | behind any number of good chunks, the fault of the first bad one is what the file is refused for |
| Png.GateImagesAccepted | scripts/performance_gate.py:158-176 | an image of the gate is accepted if and only if its sides and its size keep the release limits |
| Png.GateImageReadsBack | scripts/performance_gate.py:158-176 | an accepted gate image holds its header with both sides and then the compressor's output for `height` rows of `width` pixels |
| Png.GateWritesExactly | scripts/performance_gate.py:158-176 | the gate writes an image if and only if both sides are positive and every number fits its field |
| BinaryTarget.RequirePe | scripts/release_artifact.py:345-400 | each verdict if and only if its condition: every section inside the file, and a non-zero entry inside the file bytes of an executable section |
| BinaryTarget.RequireElf | scripts/release_artifact.py:402-456 | likewise over all program headers, for load segments |
| BinaryTarget.RequireMachO | scripts/release_artifact.py:458-536 | the walk gives the specified verdict, and no integer is read from a slice cut short |
| BinaryTarget.TilesScan | scripts/release_artifact.py:475-528 | commands that lie end to end scan without fault, and the scan sees exactly their segments and last entry point |
| BinaryTarget.MachOExactly | scripts/release_artifact.py:458-536 | accepted if and only if exactly the declared number of commands tiles the declared area without a gap and the last entry point lies in a segment mapped executable |
| BinaryTarget.TilingIsUnique | scripts/release_artifact.py:475-528 | there is only one way to cut the command area |
| BinaryTarget.RequireBinaryTargetBytes | scripts/release_artifact.py:342-536 | the three formats behind a target label, each accepted exactly as above |
| BinaryTarget.OneFormat | scripts/release_artifact.py:342-536 | no file passes for labels of two formats or processors |
| BinaryLayout.NumAt | scripts/release_artifact.py:345-536 | a number written into a layout is the field the check reads at its place |
| BinaryLayout.BitMeaning | scripts/release_artifact.py:346-391 | the tested bit is the one written into the number |
| ElfLayout.WrittenElf | scripts/release_artifact.py:402-456 | a written ELF file is accepted if and only if every load segment lies inside the file and the entry point, not zero, falls in a loaded executable one |
| PeLayout.WrittenPe | scripts/release_artifact.py:345-400 | a written PE file is accepted if and only if the data of every section lies inside the file and the entry point, not zero, falls in executable code |
| MachOLayout.WrittenMachO | scripts/release_artifact.py:458-536 | a written Mach-O file is accepted if and only if every command has the room it needs, every segment lies inside the file, and the last entry point falls in an executable one |
| LicenseInventory.ParseSummaryLines | scripts/verify_license_inventory.py:59-66 | the summary entries in file order, or the first invalid line |
| LicenseInventory.ParsePackagesAt | scripts/verify_license_inventory.py:91-115 | the nested package loops, the cursor left where the grammar says |
| LicenseInventory.ParseBodyAt | scripts/verify_license_inventory.py:124-136 | the lines up to the closing fence, or that there is none |
| LicenseInventory.ParseSectionAt | scripts/verify_license_inventory.py:75-149 | one section and the cursor behind it, or the fault found first |
| LicenseInventory.ParseSectionsAt | scripts/verify_license_inventory.py:68-149 | the outer loop reads the sections the grammar gives |
| LicenseInventory.Parse | scripts/verify_license_inventory.py:44-155 | a text becomes its canonical inventory or its first fault |
| LicenseInventory.SameSectionSorts | scripts/verify_license_inventory.py:142-149 | sections compare equal if and only if they have the same id, name, text and multiset of packages |
| LicenseInventory.SameSectionsSort | scripts/verify_license_inventory.py:142-155 | lists of sections with sorted packages agree as multisets if and only if they say the same equally often |
| LicenseInventory.VerifiedExactly | scripts/verify_license_inventory.py:158-176 | no problem is reported if and only if the multisets of summary lines and of what the sections say agree |
| LicenseInventory.VerifyInventories | scripts/verify_license_inventory.py:158-176 | succeeds if and only if both texts parse and say the same, in any order |
| LicenseInventory.ReorderedSections | scripts/verify_license_inventory.py:142-155 | lists of sections say the same equally often if and only if one is a reordering of the other, packages inside sections included |
| LicenseInventory.ProblemsExplained | scripts/verify_license_inventory.py:158-176 | what each reported problem means for the inventories as written: which sections only one of them has, on which side, and when only the summary or how often sections occur differs |
| LicenseGrammar.SectionExactly | scripts/verify_license_inventory.py:75-149 | a section is read from some lines if and only if they begin with one put together from a heading, a name, package lists and blank lines, and a fenced text, and it says what they say |
| LicenseGrammar.SectionFaults | scripts/verify_license_inventory.py:116-136 | behind a good heading, name and package lists, the first of packages, opening fence and closing fence that is missing is what is reported |
| LicenseGrammar.NoTextFault | scripts/verify_license_inventory.py:138-140 | a text that is all line breaks is reported as no text |
| LicenseGrammar.AcceptedExactly | scripts/verify_license_inventory.py:44-155 | the parser accepts exactly the reports put together so, and reads what they say |
| Sorting.SameSorted | scripts/verify_license_inventory.py:155 | for a total order, sorted lists are equal if and only if the lists hold the same entries equally often |
| LicenseRendering.SectionRoundTrip | about.hbs:15-27 | a rendered section reads back with its fields stripped and its text trimmed of line breaks, and leaves what follows it |
| LicenseRendering.RenderedRoundTrip | about.hbs:7-27 | the lines of a rendered report read its inventory back, behind any preamble without the two headings |
| LicenseRendering.FileRoundTrip | scripts/verify_license_inventory.py:44-155 | parsing a rendered report file, whatever line endings its texts have, gives the canonical form of its inventory |
| LicenseText.CleanFacts | scripts/verify_license_inventory.py:40-46 | a text written between fences reads back as its normalized text, short of at most a break at its end |
| LicenseReparse.ParsedReadsBack | scripts/verify_license_inventory.py:44-155 | every inventory the parser reads is one the template can carry, and reads back as itself |
| LicenseReparse.Reparse | scripts/verify_license_inventory.py:44-155 | parsing, rendering and parsing again gives what the first parse gave |

## Left out

- Allocation failures (`try_reserve_exact`) and write or flush errors of a broken pipe: every allocation and write succeeds.
- 32-bit address spaces: `usize` holds every length the limits allow, and `checked_rgba_len` never fails on conversion.
- `Instant` overflow: time is a natural number of nanoseconds.
- Floating-point rounding in `crop.rs`: coordinates are exact reals. A non-finite coordinate is a case of its own in `CropPixels.CropPixelRect`.
- The decoders: a codec is any function from bytes to a result, required only where stated to return a color profile within the limits (`WorkerLaws.Trustworthy`).
- The parent process: it is the peer described at crates/viewr-decode/src/main.rs:3-7.
- Process hardening, the hand-run notice and the seccomp crate.
- The platform Trash: listing and restoring are parameters, and a file's identity is a number. Path comparison ignoring case on Windows and the macOS restore are not modelled.
- Playlist scopes, filters, ratings, provenance and the focused index around reinsertion in `app.rs`.
- A folder rescan that lists an entry again while its move is on its way, or that changes the list around it; the queue limit; a permanent delete, which goes the way of a move without a receipt.
- Decoding animation frames: an animation is any list of at least two delays within the playable range.
- `crop_handle_from_uv`, `crop_keyboard_delta`, `crop_ratio_for_source` and `reduced_crop_ratio`: short calculations no other result needs.
- Argument parsing, doctor report, terminal width and colour in `cli.rs`.
- The zlib compressor: a parameter of `Png.DeterministicPng`.
- Reading files, and the message texts of the Python scripts: errors are enumerated. Package labels and their digest in drift messages are sets of sections.
- HTML escaping of the license id and crate name in the report template: fields are printed as they are.
- A blank or multi-line field, or a license text with a line `>>>`, in the rendered report: the parser refuses it or reads it as something else, so `LicenseRendering.Renderable` leaves them out.
