/**
  Trash undo as it runs: records whose playlist index is rebased in place, an
  outcome whose lists are drained, and the application's playlist. Each method
  is proved against the functions of `TrashRecords`.
 */
module Trash {
  import opened Arith
  import opened Wrappers
  import opened IndexLists
  import opened TrashRecords
  import opened TrashQueue
  import opened TrashRevert
  import TrashRuns

  class TrashedFile {
    const receipt: TrashReceipt
    var playlistIndex: nat

    constructor (receipt: TrashReceipt, playlistIndex: nat)
      ensures this.receipt == receipt && this.playlistIndex == playlistIndex
    {
      this.receipt := receipt;
      this.playlistIndex := playlistIndex;
    }

    function Value(): Record
      reads this
    {
      Record(receipt, playlistIndex)
    }
  }

  function Values(files: seq<TrashedFile>): seq<Record>
    reads files
  {
    seq(|files|, i requires 0 <= i < |files| reads files => files[i].Value())
  }

  /** Shift every record left by how many omitted indices lie below it. */
  method RebaseTrashedFileIndices(records: seq<TrashedFile>, omitted: seq<nat>)
    requires Distinct(records)
    modifies records
    ensures Values(records) == RebasedAll(old(Values(records)), omitted)
  {
    for i := 0 to |records|
      invariant forall j :: 0 <= j < i ==> records[j].Value() == Rebased(old(Values(records))[j], omitted)
      invariant forall j :: i <= j < |records| ==> records[j].Value() == old(Values(records))[j]
    {
      var record := records[i];
      record.playlistIndex := SaturatingSub(record.playlistIndex, CountBelow(omitted, record.playlistIndex));
    }
  }

  /** Shift every record left by how many removed live entries precede its gap. */
  method RebaseAfterCurrentRemovals(records: seq<TrashedFile>, removed: seq<nat>)
    requires Distinct(records)
    modifies records
    ensures Values(records) == RebasedAfterRemovals(old(Values(records)), removed)
  {
    var pending := Indices(Values(records));
    for i := 0 to |records|
      invariant forall j :: 0 <= j < i ==>
        records[j].Value() == RebasedAfterRemovals(old(Values(records)), removed)[j]
      invariant forall j :: i <= j < |records| ==> records[j].Value() == old(Values(records))[j]
    {
      var record := records[i];
      assert record.Value() == old(Values(records))[i];
      var currentGap := CurrentGap(pending, record.playlistIndex);
      record.playlistIndex := SaturatingSub(record.playlistIndex, CountBelow(removed, currentGap));
    }
  }

  datatype TrashRestoreFailure = TrashRestoreFailure(record: TrashedFile, error: TrashRestoreError)

  function FailureFiles(failures: seq<TrashRestoreFailure>): seq<TrashedFile> {
    seq(|failures|, i requires 0 <= i < |failures| => failures[i].record)
  }

  function FailureValues(failures: seq<TrashRestoreFailure>): seq<Failure>
    reads FailureFiles(failures)
  {
    seq(|failures|, i requires 0 <= i < |failures| reads FailureFiles(failures) =>
      assert FailureFiles(failures)[i] in FailureFiles(failures);
      Failure(failures[i].record.Value(), failures[i].error))
  }

  function RetryableFiles(failures: seq<TrashRestoreFailure>): seq<TrashedFile> {
    if |failures| == 0 then []
    else
      var m := |failures| - 1;
      var before := RetryableFiles(failures[..m]);
      if CanRetry(failures[m].error) then before + [failures[m].record] else before
  }

  function DroppedFiles(failures: seq<TrashRestoreFailure>): seq<TrashedFile> {
    if |failures| == 0 then []
    else
      var m := |failures| - 1;
      var before := DroppedFiles(failures[..m]);
      if CanRetry(failures[m].error) then before else before + [failures[m].record]
  }

  /** One more failure goes to one of the two lists, among the objects as among their values. */
  lemma OneMoreFiltered(before: seq<TrashRestoreFailure>, f: TrashRestoreFailure)
    requires Values(RetryableFiles(before)) == RetryableRecords(FailureValues(before))
    requires Values(DroppedFiles(before)) == DroppedRecords(FailureValues(before))
    requires multiset(FailureFiles(before)) == multiset(RetryableFiles(before)) + multiset(DroppedFiles(before))
    ensures var failures := before + [f];
      && Values(RetryableFiles(failures)) == RetryableRecords(FailureValues(failures))
      && Values(DroppedFiles(failures)) == DroppedRecords(FailureValues(failures))
      && multiset(FailureFiles(failures)) == multiset(RetryableFiles(failures)) + multiset(DroppedFiles(failures))
  {
    FailureConcat(before, [f]);
    assert (before + [f])[..|before|] == before;
    assert FailureFiles([f]) == [f.record] && FailureValues([f]) == [Failure(f.record.Value(), f.error)];
    OneMoreFailure(FailureValues(before), Failure(f.record.Value(), f.error));
    ValuesConcat(if CanRetry(f.error) then RetryableFiles(before) else DroppedFiles(before), [f.record]);
    assert Values([f.record]) == [f.record.Value()];
    hide RetryableRecords, DroppedRecords, Values, FailureValues;
    ShareOneMore(RetryableFiles(before), DroppedFiles(before), FailureFiles(before), f.record);
  }

  lemma {:induction false} FilteredValues(failures: seq<TrashRestoreFailure>)
    ensures Values(RetryableFiles(failures)) == RetryableRecords(FailureValues(failures))
    ensures Values(DroppedFiles(failures)) == DroppedRecords(FailureValues(failures))
    ensures multiset(FailureFiles(failures)) == multiset(RetryableFiles(failures)) + multiset(DroppedFiles(failures))
  {
    if |failures| > 0 {
      var m := |failures| - 1;
      FilteredValues(failures[..m]);
      assert failures == failures[..m] + [failures[m]];
      hide RetryableFiles, DroppedFiles, RetryableRecords, DroppedRecords;
      OneMoreFiltered(failures[..m], failures[m]);
    }
  }

  class TrashRestoreOutcome {
    var restored: seq<TrashedFile>
    var failures: seq<TrashRestoreFailure>

    constructor (restored: seq<TrashedFile>, failures: seq<TrashRestoreFailure>)
      ensures this.restored == restored && this.failures == failures
    {
      this.restored := restored;
      this.failures := failures;
    }

    ghost function Files(): seq<TrashedFile>
      reads this
    {
      restored + FailureFiles(failures)
    }

    ghost function Value(): Outcome
      reads this, restored, FailureFiles(failures)
    {
      Outcome(Values(restored), FailureValues(failures))
    }

    /** The live position for a restored record: its index less the failures below it. */
    method RestoredIndex(originalIndex: nat) returns (index: nat)
      ensures index == RestoredPlaylistIndex(FailureValues(failures), originalIndex)
    {
      var missingBefore := 0;
      ghost var indices := Indices(FailedRecords(FailureValues(failures)));
      for i := 0 to |failures|
        invariant missingBefore == CountBelow(indices[..i], originalIndex)
      {
        assert indices[..i + 1][..i] == indices[..i];
        if failures[i].record.playlistIndex < originalIndex {
          missingBefore := missingBefore + 1;
        }
      }
      assert indices[..|failures|] == indices;
      index := SaturatingSub(originalIndex, missingBefore);
    }

    /** Put the restored records in stable order of their playlist index. */
    method SortRestored()
      modifies this`restored
      ensures Values(restored) == SortByIndex(old(Values(restored)))
      ensures Ascending(Values(restored))
      ensures FailureValues(failures) == old(FailureValues(failures))
    {
      SortIsAscending(Values(restored));
      restored := SortFiles(restored);
      assert Values(restored) == SortByIndex(old(Values(restored)));
    }

    /** Drain the failures, keeping the retryable records rebased by the dropped ones. */
    method TakeRetryableRecords() returns (retryable: seq<TrashedFile>)
      requires Distinct(FailureFiles(failures))
      modifies this`failures, FailureFiles(failures)
      ensures failures == []
      ensures Values(retryable) == TakeRetryable(old(FailureValues(failures)))
      ensures retryable == RetryableFiles(old(failures))
      ensures Distinct(retryable)
    {
      FilteredValues(failures);
      DistinctByMultiset(FailureFiles(failures), RetryableFiles(failures));
      var omitted := Indices(Values(DroppedFiles(failures)));
      retryable := RetryableFiles(failures);
      failures := [];
      assert forall i :: 0 <= i < |retryable| ==> retryable[i] in old(FailureFiles(failures));
      RebaseTrashedFileIndices(retryable, omitted);
    }
  }

  /** Run one restore per receipt in order, threading whatever state the restorer mutates. */
  function RunRestores<S>(
    receipts: seq<TrashReceipt>, state: S, restore: (TrashReceipt, S) -> (Attempt, S)
  ): (r: (seq<Attempt>, S))
    ensures |r.0| == |receipts|
  {
    if |receipts| == 0 then ([], state)
    else
      var m := |receipts| - 1;
      var (attempts, before) := RunRestores(receipts[..m], state, restore);
      var (attempt, after) := restore(receipts[m], before);
      (attempts + [attempt], after)
  }

  function Receipts(records: seq<TrashedFile>): seq<TrashReceipt> {
    seq(|records|, i requires 0 <= i < |records| => records[i].receipt)
  }

  ghost function RestoredFiles(records: seq<TrashedFile>, attempts: seq<Attempt>): seq<TrashedFile>
    requires |records| == |attempts|
  {
    if |records| == 0 then []
    else
      var m := |records| - 1;
      var before := RestoredFiles(records[..m], attempts[..m]);
      if attempts[m].Restored? then before + [records[m]] else before
  }

  ghost function FailedFiles(records: seq<TrashedFile>, attempts: seq<Attempt>): seq<TrashRestoreFailure>
    requires |records| == |attempts|
  {
    if |records| == 0 then []
    else
      var m := |records| - 1;
      var before := FailedFiles(records[..m], attempts[..m]);
      if attempts[m].Failed? then before + [TrashRestoreFailure(records[m], attempts[m].error)] else before
  }

  lemma ValuesConcat(a: seq<TrashedFile>, b: seq<TrashedFile>)
    ensures Values(a + b) == Values(a) + Values(b)
  {
  }

  lemma FailureConcat(a: seq<TrashRestoreFailure>, b: seq<TrashRestoreFailure>)
    ensures FailureValues(a + b) == FailureValues(a) + FailureValues(b)
    ensures FailureFiles(a + b) == FailureFiles(a) + FailureFiles(b)
  {
  }

  /** The files sorted by attempt have the values `Partition` sorts by attempt. */
  lemma {:induction false} PartitionedFiles(records: seq<TrashedFile>, attempts: seq<Attempt>)
    requires |records| == |attempts|
    ensures Outcome(Values(RestoredFiles(records, attempts)), FailureValues(FailedFiles(records, attempts)))
            == Partition(Values(records), attempts)
  {
    if |records| > 0 {
      var m := |records| - 1;
      PartitionedFiles(records[..m], attempts[..m]);
      assert Values(records)[..m] == Values(records[..m]);
      if attempts[m].Restored? {
        ValuesConcat(RestoredFiles(records[..m], attempts[..m]), [records[m]]);
      } else {
        FailureConcat(FailedFiles(records[..m], attempts[..m]), [TrashRestoreFailure(records[m], attempts[m].error)]);
      }
    }
  }

  ghost predicate SharedOut(records: seq<TrashedFile>, restored: seq<TrashedFile>, failures: seq<TrashRestoreFailure>) {
    multiset(records) == multiset(restored) + multiset(FailureFiles(failures))
  }

  lemma OneMoreShared(
    records: seq<TrashedFile>, restored: seq<TrashedFile>, failures: seq<TrashRestoreFailure>,
    record: TrashedFile, error: TrashRestoreError
  )
    requires SharedOut(records, restored, failures)
    ensures SharedOut(records + [record], restored + [record], failures)
    ensures SharedOut(records + [record], restored, failures + [TrashRestoreFailure(record, error)])
  {
    ShareOneMore(restored, FailureFiles(failures), records, record);
    FailureConcat(failures, [TrashRestoreFailure(record, error)]);
    assert FailureFiles([TrashRestoreFailure(record, error)]) == [record];
  }

  /** No file is lost and none is listed twice. */
  lemma {:induction false} PartitionKeepsFiles(records: seq<TrashedFile>, attempts: seq<Attempt>)
    requires |records| == |attempts|
    ensures SharedOut(records, RestoredFiles(records, attempts), FailedFiles(records, attempts))
  {
    if |records| > 0 {
      var m := |records| - 1;
      PartitionKeepsFiles(records[..m], attempts[..m]);
      assert records == records[..m] + [records[m]];
      OneMoreShared(records[..m], RestoredFiles(records[..m], attempts[..m]), FailedFiles(records[..m], attempts[..m]),
        records[m], if attempts[m].Failed? then attempts[m].error else OperationFailed);
    }
  }

  lemma OneMoreRun<S>(
    records: seq<TrashedFile>, i: nat, state: S, restore: (TrashReceipt, S) -> (Attempt, S)
  )
    requires i < |records|
    ensures records[..i + 1][..i] == records[..i]
    ensures var (attempts, before) := RunRestores(Receipts(records[..i]), state, restore);
      var (attempt, after) := restore(records[i].receipt, before);
      RunRestores(Receipts(records[..i + 1]), state, restore) == (attempts + [attempt], after)
  {
    assert Receipts(records[..i + 1])[..i] == Receipts(records[..i]);
  }

  /** The first `i` records have been attempted, with these results so far. */
  ghost predicate BatchSoFar<S>(
    records: seq<TrashedFile>, i: nat, state: S, restore: (TrashReceipt, S) -> (Attempt, S),
    attempts: seq<Attempt>, after: S, restored: seq<TrashedFile>, failures: seq<TrashRestoreFailure>
  ) {
    && i == |attempts| <= |records|
    && (attempts, after) == RunRestores(Receipts(records[..i]), state, restore)
    && restored == RestoredFiles(records[..i], attempts)
    && failures == FailedFiles(records[..i], attempts)
  }

  lemma BatchStep<S>(
    records: seq<TrashedFile>, i: nat, state: S, restore: (TrashReceipt, S) -> (Attempt, S),
    attempts: seq<Attempt>, after: S, restored: seq<TrashedFile>, failures: seq<TrashRestoreFailure>
  )
    requires i < |records| && BatchSoFar(records, i, state, restore, attempts, after, restored, failures)
    ensures var (attempt, next) := restore(records[i].receipt, after);
      BatchSoFar(records, i + 1, state, restore, attempts + [attempt], next,
        if attempt.Restored? then restored + [records[i]] else restored,
        if attempt.Failed? then failures + [TrashRestoreFailure(records[i], attempt.error)] else failures)
  {
    OneMoreRun(records, i, state, restore);
    var attempt := restore(records[i].receipt, after).0;
    assert (attempts + [attempt])[..i] == attempts;
  }

  /** Attempt every record once; each one is pushed to exactly one of the two lists. */
  method RestoreTrashBatchWith<S>(
    records: seq<TrashedFile>, state: S, restore: (TrashReceipt, S) -> (Attempt, S)
  ) returns (outcome: TrashRestoreOutcome, after: S)
    ensures fresh(outcome)
    ensures after == RunRestores(Receipts(records), state, restore).1
    ensures outcome.Value() == Partition(Values(records), RunRestores(Receipts(records), state, restore).0)
    ensures multiset(outcome.Files()) == multiset(records)
  {
    var restored: seq<TrashedFile> := [];
    var failures: seq<TrashRestoreFailure> := [];
    after := state;
    ghost var attempts: seq<Attempt> := [];
    for i := 0 to |records|
      invariant BatchSoFar(records, i, state, restore, attempts, after, restored, failures)
    {
      var record := records[i];
      var (attempt, next) := restore(record.receipt, after);
      BatchStep(records, i, state, restore, attempts, after, restored, failures);
      match attempt {
        case Restored => restored := restored + [record];
        case Failed(error) => failures := failures + [TrashRestoreFailure(record, error)];
      }
      attempts, after := attempts + [attempt], next;
    }
    assert records[..|records|] == records;
    PartitionedFiles(records, attempts);
    PartitionKeepsFiles(records, attempts);
    outcome := new TrashRestoreOutcome(restored, failures);
  }

  /** Prepare the shared state once; when that fails, every record fails with its error. */
  method RestoreTrashBatchWithSharedState<S>(
    records: seq<TrashedFile>, prepared: Result<S, TrashRestoreError>, restore: (TrashReceipt, S) -> (Attempt, S)
  ) returns (outcome: TrashRestoreOutcome)
    ensures fresh(outcome)
    ensures outcome.Value() == match prepared
      case Ok(shared) =>
        Partition(Values(records), RunRestores(Receipts(records), shared, restore).0)
      case Err(error) =>
        Partition(Values(records), seq(|records|, _ => Failed(error)))
    ensures multiset(outcome.Files()) == multiset(records)
  {
    match prepared {
      case Ok(shared) =>
        var after;
        outcome, after := RestoreTrashBatchWith(records, shared, restore);
      case Err(error) =>
        var failures := seq(|records|, i requires 0 <= i < |records| => TrashRestoreFailure(records[i], error));
        outcome := new TrashRestoreOutcome([], failures);
        AllFailed(Values(records), error);
        assert FailureFiles(failures) == records;
    }
  }

  lemma {:induction false} AllFailed(records: seq<Record>, error: TrashRestoreError)
    ensures Partition(records, seq(|records|, _ => Failed(error))) ==
            Outcome([], seq(|records|, i requires 0 <= i < |records| => Failure(records[i], error)))
  {
    if |records| > 0 {
      var m := |records| - 1;
      AllFailed(records[..m], error);
      assert seq(|records|, _ => Failed(error))[..m] == seq(m, _ => Failed(error));
    }
  }

  // ----- the stable sort of restored records

  function SortFiles(files: seq<TrashedFile>): seq<TrashedFile>
    reads files
  {
    Picked(files, Order(Indices(Values(files)), |files|))
  }

  /** Keep the paths not named for removal, in order, and report the ones taken out. */
  method RemoveFromPlaylist(files: seq<Path>, toRemove: seq<Path>) returns (kept: seq<Path>, removed: seq<Path>)
    ensures kept == RetainedPaths(files, set p | p in toRemove)
    ensures removed == RemovedPaths(files, set p | p in toRemove)
  {
    var kill := set p | p in toRemove;
    kept, removed := [], [];
    for i := 0 to |files|
      invariant kept == RetainedPaths(files[..i], kill)
      invariant removed == RemovedPaths(files[..i], kill)
    {
      assert files[..i + 1][..i] == files[..i];
      if files[i] in kill {
        removed := removed + [files[i]];
      } else {
        kept := kept + [files[i]];
      }
    }
    assert files[..|files|] == files;
  }

  // ----- the application's undo state

  class UndoSession {
    var playlist: seq<Path>
    /** Submitted moves, the one the worker carries out first. */
    var moves: seq<Removal>
    var lastTrashed: seq<TrashedFile>
    /** The list the pending indices refer to. */
    ghost var base: seq<Path>

    /** The session as the runs of `TrashRuns` see it. */
    ghost function Now(): TrashRuns.Moving
      reads this, lastTrashed
    {
      TrashRuns.Moving(playlist, moves, Values(lastTrashed))
    }

    ghost function State(): Undo
      reads this, lastTrashed
    {
      TrashRuns.View(Now())
    }

    /** The event is possible now. */
    ghost predicate Possible(e: TrashRuns.SessionEvent)
      reads this, lastTrashed
    {
      TrashRuns.Possible(Now(), e)
    }

    ghost predicate Valid()
      reads this, lastTrashed
    {
      Distinct(lastTrashed) && TrashRuns.Sound(base, Now())
    }

    constructor (files: seq<Path>)
      ensures Valid() && fresh(lastTrashed)
      ensures State() == Undo(files, []) && base == files && moves == []
    {
      playlist, moves, lastTrashed, base := files, [], [], files;
      WithoutNothing(files);
      new;
      assert Indices(Values(lastTrashed)) == [];
    }

    /** Put restored records back in ascending order, each at its own live position. */
    method ReinsertRestored(outcome: TrashRestoreOutcome)
      requires Ascending(Values(outcome.restored))
      modifies this`playlist
      ensures playlist == Reinsert(old(playlist), old(Values(outcome.restored)), old(FailureValues(outcome.failures)))
    {
      ghost var restored, failures := Values(outcome.restored), FailureValues(outcome.failures);
      assert restored[0..] == restored;
      for i := 0 to |outcome.restored|
        invariant Values(outcome.restored) == restored && FailureValues(outcome.failures) == failures
        invariant Reinsert(playlist, restored[i..], failures) == Reinsert(old(playlist), restored, failures)
      {
        var record := outcome.restored[i];
        var index := outcome.RestoredIndex(record.playlistIndex);
        assert restored[i..][0] == record.Value() && restored[i..][1..] == restored[i + 1..];
        assert FailureValues(outcome.failures) == failures;
        assert restored[i..][0].playlistIndex == record.playlistIndex;
        assert index == RestoredPlaylistIndex(failures, record.playlistIndex);
        var next := InsertAt(playlist, Min(index, |playlist|), record.receipt.originalPath);
        assert Reinsert(playlist, restored[i..], failures) == Reinsert(next, restored[i + 1..], failures);
        playlist := next;
      }
      assert restored[|restored|..] == [];
    }

    /** Reinsert what was restored and keep the rebased retryable records as the pending undo. */
    method ApplyOutcome(outcome: TrashRestoreOutcome)
      requires Distinct(FailureFiles(outcome.failures))
      requires forall f :: f in FailureFiles(outcome.failures) ==> f in lastTrashed
      modifies this`playlist, this`lastTrashed, outcome, FailureFiles(outcome.failures)
      ensures playlist == Reinsert(old(playlist), SortByIndex(old(outcome.Value()).restored), old(outcome.Value()).failures)
      ensures Values(lastTrashed) == TakeRetryable(old(outcome.Value()).failures)
      ensures Distinct(lastTrashed) && forall f :: f in lastTrashed ==> f in old(lastTrashed)
    {
      ghost var failures := outcome.failures;
      outcome.SortRestored();
      ReinsertRestored(outcome);
      assert FailureValues(outcome.failures) == old(FailureValues(outcome.failures));
      lastTrashed := outcome.TakeRetryableRecords();
      FilteredValues(failures);
      DistinctByMultiset(FailureFiles(failures), RetryableFiles(failures));
    }

    /** Put the restored records back and keep only what may be retried. */
    method FinishTrashRestore(outcome: TrashRestoreOutcome, ghost attempts: seq<Attempt>)
      requires Valid() && moves == [] && |attempts| == |lastTrashed|
      requires multiset(outcome.Files()) == multiset(lastTrashed)
      requires outcome.Value() == Partition(Values(lastTrashed), attempts)
      modifies this, outcome, lastTrashed
      ensures Valid()
      ensures State() == Step(old(State()), Restore(attempts))
      ensures old(Possible(TrashRuns.RestoreAll(attempts)))
      ensures Now() == TrashRuns.After(old(Now()), TrashRuns.RestoreAll(attempts))
      ensures base == Without(old(base), LostSlots(old(base), old(State()), Restore(attempts)))
      ensures forall f :: f in lastTrashed ==> f in old(lastTrashed)
    {
      hide Step, Enabled, LostSlots, Reinsert, TakeRetryable, Settled, Submitted, Inv, Partition, SortByIndex;
      ghost var before, e := State(), Restore(attempts);
      RestoreSteps(playlist, Values(lastTrashed), attempts);
      StepKeepsInv(base, before, e);
      DistinctByMultiset(lastTrashed, FailureFiles(outcome.failures));
      assert forall i :: 0 <= i < |outcome.failures| ==> FailureFiles(outcome.failures)[i] in lastTrashed;
      ApplyOutcome(outcome);
      NothingMoving(playlist);
      base := Without(base, LostSlots(base, before, e));
    }

    /** Undo: attempt every pending record and apply the outcome. */
    method UndoTrash<S>(state: S, restore: (TrashReceipt, S) -> (Attempt, S)) returns (after: S)
      requires Valid() && moves == []
      modifies this, lastTrashed
      ensures Valid()
      ensures var run := RunRestores(Receipts(old(lastTrashed)), state, restore);
        after == run.1 && State() == Step(old(State()), Restore(run.0))
      ensures var run := RunRestores(Receipts(old(lastTrashed)), state, restore);
        && old(Possible(TrashRuns.RestoreAll(run.0)))
        && Now() == TrashRuns.After(old(Now()), TrashRuns.RestoreAll(run.0))
    {
      var outcome;
      outcome, after := RestoreTrashBatchWith(lastTrashed, state, restore);
      FinishTrashRestore(outcome, RunRestores(Receipts(lastTrashed), state, restore).0);
    }

    /** A removed live entry leaves the playlist and every pending record is rebased past it. */
    method RemoveCurrent(positions: seq<nat>)
      requires Valid() && moves == [] && Enabled(State(), Remove(positions))
      modifies this, lastTrashed
      ensures Valid()
      ensures State() == Step(old(State()), Remove(positions))
      ensures old(Possible(TrashRuns.RemoveLive(positions)))
      ensures Now() == TrashRuns.After(old(Now()), TrashRuns.RemoveLive(positions))
      ensures base == Without(old(base), LostSlots(old(base), old(State()), Remove(positions)))
      ensures lastTrashed == old(lastTrashed)
    {
      ghost var before, e := State(), Remove(positions);
      StepKeepsInv(base, before, e);
      RebaseAfterCurrentRemovals(lastTrashed, positions);
      playlist := Without(playlist, positions);
      base := Without(base, LostSlots(base, before, e));
    }

    /** Take an entry out of the playlist and queue its move. */
    method SubmitMove(position: nat)
      requires Valid() && position < |playlist|
      modifies this`playlist, this`moves
      ensures Valid() && State() == old(State())
      ensures playlist == Without(old(playlist), [position])
      ensures moves == old(moves) + [Removal(old(playlist)[position], position)]
      ensures old(Possible(TrashRuns.Submit(position))) && Now() == TrashRuns.After(old(Now()), TrashRuns.Submit(position))
    {
      SubmitKeepsSettled(playlist, moves, position);
      moves := moves + [Removal(playlist[position], position)];
      playlist := Without(playlist, [position]);
    }

    /** The first move is done: with a receipt it replaces the previous undo, without one that is rebased past it. */
    method FinishMove(receipt: Option<TrashReceipt>)
      requires Valid() && moves != []
      requires receipt.Some? ==> receipt.value.originalPath == moves[0].path
      modifies this, lastTrashed
      ensures Valid() && playlist == old(playlist) && moves == old(moves)[1..]
      ensures Enabled(old(State()), FinishEvent(old(moves)[0], receipt))
      ensures State() == Step(old(State()), FinishEvent(old(moves)[0], receipt))
      ensures old(Possible(TrashRuns.Finish(receipt))) && Now() == TrashRuns.After(old(Now()), TrashRuns.Finish(receipt))
      ensures base == Without(old(base), LostSlots(old(base), old(State()), FinishEvent(old(moves)[0], receipt)))
      ensures receipt.None? ==> lastTrashed == old(lastTrashed)
    {
      hide Step, Enabled, LostSlots, Settled, Submitted, Inv, RebasedAfterRemovals;
      ghost var before, e := State(), FinishEvent(moves[0], receipt);
      var move := moves[0];
      FinishTakesOut(playlist, moves);
      FinishSteps(playlist, moves, Values(lastTrashed), receipt);
      StepKeepsInv(base, before, e);
      match receipt {
        case Some(r) =>
          var record := new TrashedFile(r, move.index);
          lastTrashed := [record];
          assert Values(lastTrashed) == [Record(r, move.index)];
        case None =>
          if |lastTrashed| > 0 {
            RebaseAfterCurrentRemovals(lastTrashed, [move.index]);
          } else {
            NothingRebased([move.index]);
            assert Values(lastTrashed) == [];
          }
      }
      moves := moves[1..];
      base := Without(base, LostSlots(base, before, e));
    }

    /** The first move failed: put it back, and every move queued behind it, oldest first. */
    method AbandonMoves()
      requires Valid()
      modifies this`playlist, this`moves, this`base
      ensures playlist == RevertAll(old(playlist), old(moves)) && moves == []
      ensures old(Possible(TrashRuns.Abandon)) && Now() == TrashRuns.After(old(Now()), TrashRuns.Abandon)
      ensures Distinct(old(State()).playlist) ==>
        Valid() && multiset(playlist) == multiset(old(State()).playlist) && multiset(base) == multiset(old(base))
      ensures Distinct(old(State()).playlist) && InOrder(old(playlist), old(moves)) ==>
        State() == old(State()) && base == old(base)
    {
      hide Submitted, Settled, Inv, InOrder;
      ghost var before := State();
      var abandoned := moves;
      moves := [];
      for i := 0 to |abandoned|
        invariant moves == [] && lastTrashed == old(lastTrashed) && base == old(base)
        invariant playlist == RevertAll(old(playlist), abandoned[..i])
      {
        assert abandoned[..i + 1][..i] == abandoned[..i];
        playlist := Revert(playlist, abandoned[i]);
      }
      assert abandoned[..|abandoned|] == abandoned;
      NothingMoving(playlist);
      if Distinct(before.playlist) {
        base := FailureKeepsInv(base, old(playlist), abandoned, before.pending);
      }
    }
  }
}
