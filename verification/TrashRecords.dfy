/**
  The index algebra of Trash undo, on values.

  `Record` is the value of a `TrashedFile`. The functions here are what the
  methods of `Trash.dfy` are proved against, and the lemmas are what the undo
  code promises: whatever mixture of restores, dropped receipts and removals
  happens, every pending record keeps pointing at its own slot.
 */
module TrashRecords {
  import opened Arith
  import opened Wrappers
  import opened IndexLists

  type Path = string

  datatype TrashRestoreError =
    | DestinationOccupied
    | AccessDenied
    | OperationFailed
    | MissingFromTrash
    | AmbiguousReceipt
    | Unsupported
    | InvalidReceipt

  datatype Disposition = RetryNow | ResolveThenRetry | ManualReview | Terminal

  function DispositionOf(error: TrashRestoreError): Disposition {
    match error
    case OperationFailed => RetryNow
    case DestinationOccupied => ResolveThenRetry
    case AccessDenied => ResolveThenRetry
    case AmbiguousReceipt => ManualReview
    case Unsupported => ManualReview
    case InvalidReceipt => ManualReview
    case MissingFromTrash => Terminal
  }

  predicate CanRetry(error: TrashRestoreError) {
    DispositionOf(error).RetryNow? || DispositionOf(error).ResolveThenRetry?
  }

  /** The identity of one live file object, and of one item in the platform Trash. */
  datatype TrashReceipt = TrashReceipt(originalPath: Path, platformId: Option<string>, restoreSource: Option<nat>)

  datatype Record = Record(receipt: TrashReceipt, playlistIndex: nat)

  datatype Failure = Failure(record: Record, error: TrashRestoreError)

  datatype Outcome = Outcome(restored: seq<Record>, failures: seq<Failure>)

  /** What one restore attempt reports. */
  datatype Attempt = Restored | Failed(error: TrashRestoreError)

  function Indices(records: seq<Record>): seq<nat> {
    seq(|records|, i requires 0 <= i < |records| => records[i].playlistIndex)
  }

  function Paths(records: seq<Record>): seq<Path> {
    seq(|records|, i requires 0 <= i < |records| => records[i].receipt.originalPath)
  }

  function FailedRecords(failures: seq<Failure>): seq<Record> {
    seq(|failures|, i requires 0 <= i < |failures| => failures[i].record)
  }

  /** Sort every record by how its attempt ended, keeping the order. */
  function Partition(records: seq<Record>, attempts: seq<Attempt>): Outcome
    requires |records| == |attempts|
  {
    if |records| == 0 then Outcome([], [])
    else
      var m := |records| - 1;
      var before := Partition(records[..m], attempts[..m]);
      match attempts[m]
      case Restored => before.(restored := before.restored + [records[m]])
      case Failed(error) => before.(failures := before.failures + [Failure(records[m], error)])
  }

  function RetryableRecords(failures: seq<Failure>): seq<Record> {
    if |failures| == 0 then []
    else
      var m := |failures| - 1;
      var before := RetryableRecords(failures[..m]);
      if CanRetry(failures[m].error) then before + [failures[m].record] else before
  }

  function DroppedRecords(failures: seq<Failure>): seq<Record> {
    if |failures| == 0 then []
    else
      var m := |failures| - 1;
      var before := DroppedRecords(failures[..m]);
      if CanRetry(failures[m].error) then before else before + [failures[m].record]
  }

  function Rebased(record: Record, omitted: seq<nat>): Record {
    record.(playlistIndex := SaturatingSub(record.playlistIndex, CountBelow(omitted, record.playlistIndex)))
  }

  function RebasedAll(records: seq<Record>, omitted: seq<nat>): seq<Record> {
    seq(|records|, i requires 0 <= i < |records| => Rebased(records[i], omitted))
  }

  /** How many live entries precede a pending slot. */
  function CurrentGap(pending: seq<nat>, index: nat): nat {
    SaturatingSub(index, CountBelow(pending, index))
  }

  function RebasedAfterRemovals(records: seq<Record>, removed: seq<nat>): seq<Record> {
    var pending := Indices(records);
    seq(|records|, i requires 0 <= i < |records| =>
      var index := records[i].playlistIndex;
      records[i].(playlistIndex := SaturatingSub(index, CountBelow(removed, CurrentGap(pending, index)))))
  }

  function RestoredPlaylistIndex(failures: seq<Failure>, originalIndex: nat): nat {
    SaturatingSub(originalIndex, CountBelow(Indices(FailedRecords(failures)), originalIndex))
  }

  function TakeRetryable(failures: seq<Failure>): seq<Record> {
    RebasedAll(RetryableRecords(failures), Indices(DroppedRecords(failures)))
  }

  ghost predicate Ascending(records: seq<Record>) {
    forall i, j :: 0 <= i < j < |records| ==> records[i].playlistIndex <= records[j].playlistIndex
  }

  /** The stable sort by playlist index that precedes reinsertion. */
  function SortByIndex(records: seq<Record>): seq<Record> {
    Picked(records, Order(Indices(records), |records|))
  }

  lemma SortIsAscending(records: seq<Record>)
    ensures Ascending(SortByIndex(records))
    ensures multiset(SortByIndex(records)) == multiset(records)
  {
    hide Order;
    var at := Order(Indices(records), |records|);
    OrderSorts(Indices(records), |records|);
    assert multiset(Picked(records, at)) == multiset(records) by {
      PickedSame(records, at, Positions(|records|));
      PickedAll(records);
    }
  }

  function InsertAt<T>(s: seq<T>, at: nat, x: T): seq<T>
    requires at <= |s|
  {
    s[..at] + [x] + s[at..]
  }

  /** Reinsert restored records one by one, each at its index less the failures before it. */
  function Reinsert(playlist: seq<Path>, restored: seq<Record>, failures: seq<Failure>): seq<Path>
    decreases |restored|
  {
    if |restored| == 0 then playlist
    else
      var at := Min(RestoredPlaylistIndex(failures, restored[0].playlistIndex), |playlist|);
      Reinsert(InsertAt(playlist, at, restored[0].receipt.originalPath), restored[1..], failures)
  }

  // ----- the run: a live playlist, pending records, and the list they index

  /** The live playlist, entries whose move is still on its way included, and the pending records. */
  datatype Undo = Undo(playlist: seq<Path>, pending: seq<Record>)

  datatype Event =
    | Restore(attempts: seq<Attempt>)
    | Remove(positions: seq<nat>)
    | Trash(position: nat, receipt: TrashReceipt)

  ghost predicate Enabled(u: Undo, e: Event) {
    match e
    case Restore(attempts) => |attempts| == |u.pending|
    case Remove(positions) => Distinct(positions) && InRange(positions, |u.playlist|)
    case Trash(position, receipt) =>
      position < |u.playlist| && receipt.originalPath == u.playlist[position]
  }

  ghost function Step(u: Undo, e: Event): Undo
    requires Enabled(u, e)
  {
    match e
    case Restore(attempts) =>
      var outcome := Partition(u.pending, attempts);
      Undo(Reinsert(u.playlist, SortByIndex(outcome.restored), outcome.failures), TakeRetryable(outcome.failures))
    case Remove(positions) =>
      Undo(Without(u.playlist, positions), RebasedAfterRemovals(u.pending, positions))
    case Trash(position, receipt) =>
      Undo(Without(u.playlist, [position]), [Record(receipt, position)])
  }

  /** The slots of the base list that hold the given live positions. */
  ghost function LiveSlots(base: seq<Path>, pending: seq<nat>, positions: seq<nat>): seq<nat>
    requires InRange(positions, |Kept(|base|, pending)|)
  {
    Picked(Kept(|base|, pending), positions)
  }

  ghost predicate Inv(base: seq<Path>, u: Undo) {
    && Distinct(Indices(u.pending))
    && (forall r :: r in u.pending ==>
          r.playlistIndex < |base| && base[r.playlistIndex] == r.receipt.originalPath)
    && u.playlist == Without(base, Indices(u.pending))
  }

  /** The slots of the base list an event gives up for good. */
  ghost function LostSlots(base: seq<Path>, u: Undo, e: Event): seq<nat>
    requires Inv(base, u) && Enabled(u, e)
  {
    match e
    case Restore(attempts) => Indices(DroppedRecords(Partition(u.pending, attempts).failures))
    case Remove(positions) =>
      LiveSlotsInRange(base, u);
      LiveSlots(base, Indices(u.pending), positions)
    case Trash(_, _) => Indices(u.pending)
  }

  /** The paths an event gives up for good: dropped, removed, or superseded by a newer undo. */
  ghost function Lost(u: Undo, e: Event): multiset<Path>
    requires Enabled(u, e)
  {
    match e
    case Restore(attempts) => multiset(Paths(DroppedRecords(Partition(u.pending, attempts).failures)))
    case Remove(positions) => multiset(Picked(u.playlist, positions))
    case Trash(_, _) => multiset(Paths(u.pending))
  }

  lemma LiveSlotsInRange(base: seq<Path>, u: Undo)
    requires Inv(base, u)
    ensures |Kept(|base|, Indices(u.pending))| == |u.playlist|
  {
    KeptEmbeds(base, Indices(u.pending));
  }

  // ----- partitioning

  /** The outcome holds exactly the given records, each once. */
  ghost predicate Accounts(records: seq<Record>, o: Outcome) {
    multiset(records) ==
    multiset(o.restored) + (multiset(RetryableRecords(o.failures)) + multiset(DroppedRecords(o.failures)))
  }

  lemma OneMoreRestored(records: seq<Record>, o: Outcome, x: Record)
    requires Accounts(records, o)
    ensures Accounts(records + [x], o.(restored := o.restored + [x]))
  {
  }

  lemma OneMoreFailed(records: seq<Record>, o: Outcome, x: Record, error: TrashRestoreError)
    requires Accounts(records, o)
    ensures Accounts(records + [x], o.(failures := o.failures + [Failure(x, error)]))
  {
    OneMoreFailure(o.failures, Failure(x, error));
  }

  /** Every record of a batch ends in exactly one of restored, retryable and dropped. */
  lemma {:induction false} EveryRecordEndsOnce(records: seq<Record>, attempts: seq<Attempt>)
    requires |records| == |attempts|
    ensures Accounts(records, Partition(records, attempts))
  {
    if |records| > 0 {
      var m := |records| - 1;
      var before := Partition(records[..m], attempts[..m]);
      hide Accounts, RetryableRecords, DroppedRecords;
      EveryRecordEndsOnce(records[..m], attempts[..m]);
      assert records == records[..m] + [records[m]];
      match attempts[m]
      case Restored => OneMoreRestored(records[..m], before, records[m]);
      case Failed(error) => OneMoreFailed(records[..m], before, records[m], error);
    }
  }

  lemma OneMoreFailure(before: seq<Failure>, f: Failure)
    ensures RetryableRecords(before + [f]) == RetryableRecords(before) + (if CanRetry(f.error) then [f.record] else [])
    ensures DroppedRecords(before + [f]) == DroppedRecords(before) + (if CanRetry(f.error) then [] else [f.record])
  {
    assert (before + [f])[..|before|] == before;
  }

  lemma {:induction false} FailuresSplit(failures: seq<Failure>)
    ensures multiset(FailedRecords(failures)) ==
            multiset(RetryableRecords(failures)) + multiset(DroppedRecords(failures))
  {
    if |failures| > 0 {
      var m := |failures| - 1;
      FailuresSplit(failures[..m]);
      assert FailedRecords(failures) == FailedRecords(failures[..m]) + [failures[m].record];
    }
  }

  /** The records whose attempt ended in one of the given ways, in order. */
  ghost function Ended(records: seq<Record>, attempts: seq<Attempt>, ways: set<Attempt>): seq<Record>
    requires |records| == |attempts|
  {
    if |records| == 0 then []
    else
      var m := |records| - 1;
      var before := Ended(records[..m], attempts[..m], ways);
      if attempts[m] in ways then before + [records[m]] else before
  }

  /**
    How a record goes on is decided by its own attempt: it stays pending after a refusal
    that may pass, and is given up after one that will not.
   */
  lemma {:induction false} AttemptsDecide(records: seq<Record>, attempts: seq<Attempt>)
    requires |records| == |attempts|
    ensures var o := Partition(records, attempts);
      && o.restored == Ended(records, attempts, {Restored})
      && RetryableRecords(o.failures) ==
         Ended(records, attempts, {Failed(OperationFailed), Failed(DestinationOccupied), Failed(AccessDenied)})
      && DroppedRecords(o.failures) ==
         Ended(records, attempts,
               {Failed(MissingFromTrash), Failed(AmbiguousReceipt), Failed(Unsupported), Failed(InvalidReceipt)})
  {
    if |records| > 0 {
      var m := |records| - 1;
      var before := Partition(records[..m], attempts[..m]);
      hide RetryableRecords, DroppedRecords;
      AttemptsDecide(records[..m], attempts[..m]);
      match attempts[m]
      case Restored =>
      case Failed(error) => OneMoreFailure(before.failures, Failure(records[m], error));
    } else {
      assert Partition(records, attempts) == Outcome([], []);
    }
  }

  /** After a restore exactly the receipts of those records are pending, in order. */
  lemma PendingAfterRestore(u: Undo, attempts: seq<Attempt>)
    requires |attempts| == |u.pending|
    ensures var after := Step(u, Restore(attempts)).pending;
      var stay := Ended(u.pending, attempts, {Failed(OperationFailed), Failed(DestinationOccupied), Failed(AccessDenied)});
      |after| == |stay| && forall i :: 0 <= i < |after| ==> after[i].receipt == stay[i].receipt
  {
    AttemptsDecide(u.pending, attempts);
    hide Partition, RetryableRecords, DroppedRecords, Ended;
  }

  // ----- from records to indices

  /** Multisets of records carry over to multisets of what is read from them. */
  lemma {:induction false} SameIndices(a: seq<Record>, b: seq<Record>)
    requires multiset(a) == multiset(b)
    ensures multiset(Indices(a)) == multiset(Indices(b))
    ensures multiset(Paths(a)) == multiset(Paths(b))
  {
    if |a| == 0 {
      assert |multiset(b)| == 0;
    } else {
      var m := |a| - 1;
      assert a[m] in multiset(b);
      var j :| 0 <= j < |b| && b[j] == a[m];
      var c := b[..j] + b[j + 1..];
      RemoveOne(b, j);
      RemoveOne(a, m);
      assert a[..m] + a[m + 1..] == a[..m];
      SameIndices(a[..m], c);
      ReadOne(a, m, a[..m]);
      ReadOne(b, j, c);
    }
  }

  lemma ReadOne(b: seq<Record>, j: nat, c: seq<Record>)
    requires j < |b| && c == b[..j] + b[j + 1..]
    ensures multiset(Indices(b)) == multiset(Indices(c)) + multiset{b[j].playlistIndex}
    ensures multiset(Paths(b)) == multiset(Paths(c)) + multiset{b[j].receipt.originalPath}
  {
    assert Indices(b) == Indices(b[..j]) + [b[j].playlistIndex] + Indices(b[j + 1..]);
    assert Indices(c) == Indices(b[..j]) + Indices(b[j + 1..]);
    assert Paths(b) == Paths(b[..j]) + [b[j].receipt.originalPath] + Paths(b[j + 1..]);
    assert Paths(c) == Paths(b[..j]) + Paths(b[j + 1..]);
  }

  lemma IndicesConcat(a: seq<Record>, b: seq<Record>)
    ensures Indices(a + b) == Indices(a) + Indices(b)
  {
  }

  /** Two groups of one distinct list of records share no index. */
  lemma GroupsDisjoint(all: seq<Record>, a: seq<Record>, b: seq<Record>)
    requires multiset(all) == multiset(a) + multiset(b) && Distinct(Indices(all))
    ensures Distinct(Indices(a) + Indices(b))
    ensures Distinct(Indices(a)) && Distinct(Indices(b))
    ensures forall k :: k in Indices(a) ==> k !in Indices(b)
    ensures forall r :: r in a || r in b ==> r in all
    ensures multiset(Indices(all)) == multiset(Indices(a) + Indices(b))
  {
    assert multiset(a + b) == multiset(all);
    SameIndices(all, a + b);
    IndicesConcat(a, b);
    DistinctByMultiset(Indices(all), Indices(a + b));
    var both := Indices(a) + Indices(b);
    assert forall i :: 0 <= i < |a| ==> both[i] == Indices(a)[i];
    assert forall i :: 0 <= i < |b| ==> both[|a| + i] == Indices(b)[i];
    forall r | r in a || r in b ensures r in all {
      assert r in multiset(all);
    }
  }

  // ----- no subtraction saturates

  /** Rebasing by distinct omitted indices subtracts exactly how many lie below. */
  lemma RebaseNeverSaturates(records: seq<Record>, omitted: seq<nat>)
    requires Distinct(omitted)
    ensures Indices(RebasedAll(records, omitted)) == Ranks(omitted, Indices(records))
  {
    forall i | 0 <= i < |records|
      ensures Indices(RebasedAll(records, omitted))[i] == Ranks(omitted, Indices(records))[i]
    {
      CountBelowBound(omitted, records[i].playlistIndex);
    }
  }

  /** A pending slot's gap is the number of live entries before it: those of the base prefix still live. */
  lemma GapCountsLiveBefore(base: seq<Path>, u: Undo, k: nat)
    requires Inv(base, u) && k <= |base|
    ensures CountBelow(Indices(u.pending), k) <= k
    ensures CurrentGap(Indices(u.pending), k) == |Without(base[..k], Indices(u.pending))|
    ensures Without(base[..k], Indices(u.pending)) <= u.playlist
  {
    CountBelowBound(Indices(u.pending), k);
    WithoutLength(base[..k], Indices(u.pending));
    WithoutPrefix(base, Indices(u.pending), k);
  }

  /** A slot lies below a pending index exactly when its live position lies before the pending gap. */
  lemma {:induction false} RemovedBelow(base: seq<Path>, pending: seq<nat>, positions: seq<nat>, k: nat)
    requires Distinct(pending) && InRange(positions, |Kept(|base|, pending)|)
    ensures CountBelow(LiveSlots(base, pending, positions), k) == CountBelow(positions, CurrentGap(pending, k))
  {
    if |positions| > 0 {
      var m := |positions| - 1;
      var slots := LiveSlots(base, pending, positions);
      assert slots[..m] == LiveSlots(base, pending, positions[..m]);
      RemovedBelow(base, pending, positions[..m], k);
      CountBelowBound(pending, k);
      KeptRank(|base|, pending, positions[m]);
      if slots[m] < k {
        RankGrows(pending, slots[m], k);
      } else {
        RankGrows(pending, k, slots[m]);
      }
    }
  }

  /** The slots behind distinct live positions: distinct, in range, not pending, and ranked back to them. */
  lemma LiveSlotsFacts(base: seq<Path>, pending: seq<nat>, positions: seq<nat>)
    requires Distinct(pending) && Distinct(positions)
    requires InRange(positions, |Kept(|base|, pending)|)
    ensures var slots := LiveSlots(base, pending, positions);
      && Distinct(slots)
      && (forall k :: k in slots ==> k < |base| && k !in pending)
      && Ranks(pending, slots) == positions
  {
    var slots := LiveSlots(base, pending, positions);
    forall i | 0 <= i < |positions|
      ensures slots[i] < |base| && slots[i] !in pending && Rank(pending, slots[i]) == positions[i]
    {
      KeptRank(|base|, pending, positions[i]);
    }
    assert Ranks(pending, slots) == positions;
  }

  /**
    Rebasing after live removals moves each record to its index in the base list
    without the removed entries.
   */
  lemma RemovalsRebaseExactly(base: seq<Path>, u: Undo, positions: seq<nat>)
    requires Inv(base, u) && Enabled(u, Remove(positions))
    ensures |Kept(|base|, Indices(u.pending))| == |u.playlist|
    ensures var slots := LiveSlots(base, Indices(u.pending), positions);
      && Distinct(slots)
      && Indices(RebasedAfterRemovals(u.pending, positions)) == Ranks(slots, Indices(u.pending))
      && (forall i :: 0 <= i < |u.pending| ==>
            CountBelow(positions, CurrentGap(Indices(u.pending), Indices(u.pending)[i])) <= Indices(u.pending)[i])
  {
    LiveSlotsInRange(base, u);
    var pending := Indices(u.pending);
    var slots := LiveSlots(base, pending, positions);
    LiveSlotsFacts(base, pending, positions);
    forall i | 0 <= i < |u.pending|
      ensures CountBelow(slots, pending[i]) == CountBelow(positions, CurrentGap(pending, pending[i])) <= pending[i]
    {
      RemovedBelow(base, pending, positions, pending[i]);
      CountBelowBound(slots, pending[i]);
      assert pending[i] == u.pending[i].playlistIndex;
    }
  }

  // ----- what every event keeps

  /** Records rebased to a shortened base still name their own entries. */
  lemma RebasedStillNames(base: seq<Path>, lost: seq<nat>, records: seq<Record>, moved: seq<Record>)
    requires Distinct(lost) && Distinct(Indices(records))
    requires forall k :: k in Indices(records) ==> k !in lost
    requires forall r :: r in records ==>
      r.playlistIndex < |base| && base[r.playlistIndex] == r.receipt.originalPath
    requires |moved| == |records| && Indices(moved) == Ranks(lost, Indices(records))
    requires forall i :: 0 <= i < |records| ==> moved[i].receipt == records[i].receipt
    ensures Inv(Without(base, lost), Undo(Without(base, lost + Indices(records)), moved))
  {
    WithoutTwice(base, lost, Indices(records), Indices(moved));
    RanksDistinct(lost, Indices(records));
    forall r | r in moved
      ensures r.playlistIndex < |Without(base, lost)|
      ensures Without(base, lost)[r.playlistIndex] == r.receipt.originalPath
    {
      var i :| 0 <= i < |moved| && moved[i] == r;
      assert records[i] in records;
      assert Indices(records)[i] in Indices(records);
      assert Indices(moved)[i] == Rank(lost, records[i].playlistIndex);
      WithoutAt(base, lost, records[i].playlistIndex);
    }
  }

  /** Reinserting ascending restored records leaves exactly the failed slots out. */
  lemma {:induction false} ReinsertFillsSlots(base: seq<Path>, restored: seq<Record>, failures: seq<Failure>)
    requires Ascending(restored)
    requires Distinct(Indices(FailedRecords(failures)) + Indices(restored))
    requires forall r :: r in restored ==>
      r.playlistIndex < |base| && base[r.playlistIndex] == r.receipt.originalPath
    ensures
      var failed := Indices(FailedRecords(failures));
      Reinsert(Without(base, failed + Indices(restored)), restored, failures) == Without(base, failed)
  {
    var failed := Indices(FailedRecords(failures));
    if |restored| == 0 {
      assert failed + Indices(restored) == failed;
    } else {
      var first := restored[0];
      var k := first.playlistIndex;
      assert first in restored;
      assert Indices(restored) == [k] + Indices(restored[1..]);
      DistinctWithoutOne(failed, Indices(restored));
      ReinsertionPoint(base, restored, failures);
      PutBack(base, failed + Indices(restored), failed + Indices(restored[1..]), k);
      ReinsertFillsSlots(base, restored[1..], failures);
    }
  }

  /** The first restored record goes in at its own rank: nothing saturates and the clamp is idle. */
  lemma ReinsertionPoint(base: seq<Path>, restored: seq<Record>, failures: seq<Failure>)
    requires |restored| > 0 && Ascending(restored) && restored[0].playlistIndex < |base|
    requires Distinct(Indices(FailedRecords(failures)) + Indices(restored))
    ensures var k := restored[0].playlistIndex;
      var failed := Indices(FailedRecords(failures));
      && CountBelow(failed, k) <= k
      && RestoredPlaylistIndex(failures, k) == Rank(failed + Indices(restored[1..]), k)
      && RestoredPlaylistIndex(failures, k) <= |Without(base, failed + Indices(restored))|
  {
    var k := restored[0].playlistIndex;
    var failed := Indices(FailedRecords(failures));
    var missing, others := failed + Indices(restored), failed + Indices(restored[1..]);
    assert Indices(restored) == [k] + Indices(restored[1..]);
    NoneBelowFirst(restored);
    DistinctWithoutOne(failed, Indices(restored));
    CountBelowConcat(failed, Indices(restored[1..]), k);
    CountBelowBound(others, k);
    PutBack(base, missing, others, k);
  }

  lemma {:induction false} NoneBelowFirst(records: seq<Record>)
    requires |records| > 0 && Ascending(records)
    ensures CountBelow(Indices(records[1..]), records[0].playlistIndex) == 0
  {
    if |records| > 1 {
      var m := |records| - 1;
      NoneBelowFirst(records[..m]);
      assert records[..m][1..] == records[1..][..m - 1];
      assert Indices(records[1..])[..m - 1] == Indices(records[1..][..m - 1]);
    }
  }

  lemma DistinctWithoutOne(a: seq<nat>, b: seq<nat>)
    requires |b| > 0 && Distinct(a + b)
    ensures Distinct(a + b[1..])
    ensures forall x :: x in a + b[1..] <==> x in a + b && x != b[0]
    ensures b[0] in a + b
  {
    var whole, rest := a + b, a + b[1..];
    assert whole[|a|] == b[0];
    assert forall i :: 0 <= i < |rest| ==> rest[i] == whole[if i < |a| then i else i + 1];
    forall x | x in whole && x != b[0]
      ensures x in rest
    {
      var i :| 0 <= i < |whole| && whole[i] == x;
      assert rest[if i < |a| then i else i - 1] == x;
    }
  }

  lemma RestoreKeepsInv(base: seq<Path>, u: Undo, attempts: seq<Attempt>)
    requires Inv(base, u) && Enabled(u, Restore(attempts))
    ensures Distinct(LostSlots(base, u, Restore(attempts)))
    ensures Inv(Without(base, LostSlots(base, u, Restore(attempts))), Step(u, Restore(attempts)))
  {
    var outcome := Partition(u.pending, attempts);
    var sorted := SortByIndex(outcome.restored);
    var failed := FailedRecords(outcome.failures);
    var retryable, dropped := RetryableRecords(outcome.failures), DroppedRecords(outcome.failures);
    EveryRecordEndsOnce(u.pending, attempts);
    FailuresSplit(outcome.failures);
    SortIsAscending(outcome.restored);
    GroupsDisjoint(u.pending, failed, sorted);
    GroupsDisjoint(failed, dropped, retryable);

    SameMembers(Indices(u.pending), Indices(failed) + Indices(sorted));
    WithoutSameSlots(base, Indices(u.pending), Indices(failed) + Indices(sorted));
    ReinsertFillsSlots(base, sorted, outcome.failures);

    SameMembers(Indices(failed), Indices(dropped) + Indices(retryable));
    WithoutSameSlots(base, Indices(failed), Indices(dropped) + Indices(retryable));
    RebaseNeverSaturates(retryable, Indices(dropped));
    RebasedStillNames(base, Indices(dropped), retryable, TakeRetryable(outcome.failures));
  }

  lemma RemoveKeepsInv(base: seq<Path>, u: Undo, positions: seq<nat>)
    requires Inv(base, u) && Enabled(u, Remove(positions))
    ensures Distinct(LostSlots(base, u, Remove(positions)))
    ensures Inv(Without(base, LostSlots(base, u, Remove(positions))), Step(u, Remove(positions)))
  {
    LiveSlotsInRange(base, u);
    var pending := Indices(u.pending);
    var slots := LiveSlots(base, pending, positions);
    LiveSlotsFacts(base, pending, positions);
    RemovalsRebaseExactly(base, u, positions);
    WithoutTwice(base, pending, slots, positions);
    WithoutSameSlots(base, pending + slots, slots + pending);
    RebasedStillNames(base, slots, u.pending, RebasedAfterRemovals(u.pending, positions));
  }

  lemma TrashKeepsInv(base: seq<Path>, u: Undo, position: nat, receipt: TrashReceipt)
    requires Inv(base, u) && Enabled(u, Trash(position, receipt))
    ensures Inv(Without(base, LostSlots(base, u, Trash(position, receipt))), Step(u, Trash(position, receipt)))
  {
    assert Indices([Record(receipt, position)]) == [position];
  }

  /** Every event keeps the live list equal to the base list less the pending slots. */
  lemma StepKeepsInv(base: seq<Path>, u: Undo, e: Event)
    requires Inv(base, u) && Enabled(u, e)
    ensures Inv(Without(base, LostSlots(base, u, e)), Step(u, e))
  {
    match e
    case Restore(attempts) => RestoreKeepsInv(base, u, attempts);
    case Remove(positions) => RemoveKeepsInv(base, u, positions);
    case Trash(position, receipt) => TrashKeepsInv(base, u, position, receipt);
  }

  // ----- conservation

  lemma InsertAtMultiset<T>(s: seq<T>, at: nat, x: T)
    requires at <= |s|
    ensures multiset(InsertAt(s, at, x)) == multiset(s) + multiset{x}
  {
    assert s == s[..at] + s[at..];
  }

  lemma PutBackConserves<T>(s: seq<T>, others: seq<nat>, k: nat)
    requires Distinct(others + [k]) && k < |s|
    ensures multiset(Without(s, others)) == multiset(Without(s, others + [k])) + multiset{s[k]}
  {
    var missing := others + [k];
    assert forall i :: 0 <= i < |others| ==> missing[i] == others[i] && missing[i] != missing[|others|];
    PutBack(s, missing, others, k);
    InsertAtMultiset(Without(s, missing), Rank(others, k), s[k]);
  }

  lemma MoveOne<T>(all: multiset<T>, kept: multiset<T>, picked: seq<T>, x: T)
    requires all == kept + multiset{x} + multiset(picked)
    ensures all == kept + multiset(picked + [x])
  {
  }

  lemma {:induction false} WithoutConserves<T>(s: seq<T>, xs: seq<nat>)
    requires Distinct(xs) && InRange(xs, |s|)
    ensures multiset(s) == multiset(Without(s, xs)) + multiset(Picked(s, xs))
  {
    if |xs| == 0 {
      WithoutNothing(s);
      assert xs == [] && Picked(s, xs) == [];
    } else {
      var others, k := xs[..|xs| - 1], xs[|xs| - 1];
      assert xs == others + [k];
      WithoutConserves(s, others);
      PutBackConserves(s, others, k);
      assert Picked(s, xs) == Picked(s, others) + [s[k]];
      MoveOne(multiset(s), multiset(Without(s, xs)), Picked(s, others), s[k]);
    }
  }

  lemma PickedPaths(base: seq<Path>, records: seq<Record>)
    requires forall r :: r in records ==>
      r.playlistIndex < |base| && base[r.playlistIndex] == r.receipt.originalPath
    ensures InRange(Indices(records), |base|)
    ensures Picked(base, Indices(records)) == Paths(records)
  {
    assert forall i :: 0 <= i < |records| ==> records[i] in records;
    forall i | 0 <= i < |records|
      ensures Picked(base, Indices(records))[i] == Paths(records)[i]
    {
      assert records[i] in records;
    }
  }

  /** An event loses exactly the paths it reports as lost. */
  lemma StepConserves(base: seq<Path>, u: Undo, e: Event)
    requires Inv(base, u) && Enabled(u, e)
    ensures multiset(base) == multiset(Without(base, LostSlots(base, u, e))) + Lost(u, e)
  {
    match e
    case Restore(attempts) =>
      var o := Partition(u.pending, attempts);
      var dropped := DroppedRecords(o.failures);
      RestoreKeepsInv(base, u, attempts);
      EveryRecordEndsOnce(u.pending, attempts);
      forall r | r in dropped
        ensures r in u.pending
      {
        assert r in multiset(u.pending);
      }
      PickedPaths(base, dropped);
      WithoutConserves(base, Indices(dropped));
    case Remove(positions) =>
      LiveSlotsInRange(base, u);
      var pending := Indices(u.pending);
      LiveSlotsFacts(base, pending, positions);
      KeptEmbeds(base, pending);
      var slots := LiveSlots(base, pending, positions);
      WithoutConserves(base, slots);
      assert Picked(base, slots) == Picked(u.playlist, positions) by {
        forall i | 0 <= i < |positions|
          ensures Picked(base, slots)[i] == Picked(u.playlist, positions)[i]
        {
          assert slots[i] == Kept(|base|, pending)[positions[i]];
        }
      }
    case Trash(position, receipt) =>
      PickedPaths(base, u.pending);
      WithoutConserves(base, Indices(u.pending));
  }

  // ----- whole runs

  ghost predicate Run(us: seq<Undo>, es: seq<Event>) {
    && |us| == |es| + 1
    && forall i :: 0 <= i < |es| ==> Enabled(us[i], es[i]) && us[i + 1] == Step(us[i], es[i])
  }

  ghost function LostInRun(us: seq<Undo>, es: seq<Event>): multiset<Path>
    requires Run(us, es)
  {
    if |es| == 0 then multiset{}
    else
      var m := |es| - 1;
      assert forall i {:trigger us[..m + 1][i]} :: 0 <= i < m + 1 ==> us[..m + 1][i] == us[i];
      LostInRun(us[..m + 1], es[..m]) + Lost(us[m], es[m])
  }

  /**
    After any run of restores, removals and new trashings, the live playlist is
    some base list less exactly the pending slots. That base list is the
    original in its original order, short of exactly the lost paths.
   */
  lemma {:induction false} RunKeepsOrder(original: seq<Path>, us: seq<Undo>, es: seq<Event>)
    returns (base: seq<Path>, at: seq<nat>)
    requires Run(us, es) && Inv(original, us[0])
    ensures Inv(base, us[|es|])
    ensures Embeds(base, original, at)
    ensures multiset(original) == multiset(base) + LostInRun(us, es)
  {
    if |es| == 0 {
      base, at := original, Positions(|original|);
    } else {
      hide Run, Inv, Step, Enabled, Embeds;
      var m := |es| - 1;
      LastEvent(us, es);
      var earlier, earlierAt := RunKeepsOrder(original, us[..m + 1], es[..m]);
      base, at := OneMoreEvent(original, earlier, earlierAt, us[m], es[m], LostInRun(us[..m + 1], es[..m]));
    }
  }

  lemma LastEvent(us: seq<Undo>, es: seq<Event>)
    requires Run(us, es) && |es| > 0
    ensures var m := |es| - 1;
      && |us| == m + 2
      && Run(us[..m + 1], es[..m]) && us[..m + 1][0] == us[0] && us[..m + 1][m] == us[m]
      && Enabled(us[m], es[m]) && us[m + 1] == Step(us[m], es[m])
      && LostInRun(us, es) == LostInRun(us[..m + 1], es[..m]) + Lost(us[m], es[m])
  {
    hide Enabled, Step, Lost;
    var m := |es| - 1;
    assert forall i {:trigger us[..m + 1][i]} :: 0 <= i < m + 1 ==> us[..m + 1][i] == us[i];
    assert us[m + 1] == Step(us[m], es[m]);
  }

  /** One event takes its lost slots out of the base list and keeps everything else. */
  lemma OneMoreEvent(
    original: seq<Path>, earlier: seq<Path>, earlierAt: seq<nat>, u: Undo, e: Event, lostBefore: multiset<Path>
  ) returns (base: seq<Path>, at: seq<nat>)
    requires Inv(earlier, u) && Enabled(u, e) && Embeds(earlier, original, earlierAt)
    requires multiset(original) == multiset(earlier) + lostBefore
    ensures Inv(base, Step(u, e)) && Embeds(base, original, at)
    ensures multiset(original) == multiset(base) + (lostBefore + Lost(u, e))
  {
    hide Inv, Step, Lost, LostSlots, Enabled;
    var lost := LostSlots(earlier, u, e);
    base := Without(earlier, lost);
    StepKeepsInv(earlier, u, e);
    StepConserves(earlier, u, e);
    KeptEmbeds(earlier, lost);
    at := EmbedsTrans(base, earlier, original, Kept(|earlier|, lost), earlierAt);
  }

  /** Once nothing is pending the playlist is the original order less exactly what was lost. */
  lemma NothingPending(original: seq<Path>, us: seq<Undo>, es: seq<Event>) returns (at: seq<nat>)
    requires Run(us, es) && Inv(original, us[0]) && us[|es|].pending == []
    ensures Embeds(us[|es|].playlist, original, at)
    ensures multiset(original) == multiset(us[|es|].playlist) + LostInRun(us, es)
  {
    var base, embedding := RunKeepsOrder(original, us, es);
    assert Indices(us[|es|].pending) == [];
    WithoutNothing(base);
    at := embedding;
  }

  // ----- removal by path

  function RetainedPaths(files: seq<Path>, kill: set<Path>): seq<Path> {
    if |files| == 0 then []
    else
      var m := |files| - 1;
      var before := RetainedPaths(files[..m], kill);
      if files[m] in kill then before else before + [files[m]]
  }

  function RemovedPaths(files: seq<Path>, kill: set<Path>): seq<Path> {
    if |files| == 0 then []
    else
      var m := |files| - 1;
      var before := RemovedPaths(files[..m], kill);
      if files[m] in kill then before + [files[m]] else before
  }

  /** Removal splits the list: nothing is lost. */
  lemma {:induction false} RemovalSplits(files: seq<Path>, kill: set<Path>)
    ensures multiset(files) == multiset(RetainedPaths(files, kill)) + multiset(RemovedPaths(files, kill))
  {
    if |files| > 0 {
      var m := |files| - 1;
      RemovalSplits(files[..m], kill);
      assert files == files[..m] + [files[m]];
      ShareOneMore(RetainedPaths(files[..m], kill), RemovedPaths(files[..m], kill), files[..m], files[m]);
    }
  }

  /** Removing by path is removing by position when the live paths are distinct. */
  lemma {:induction false} RemovalByPath(files: seq<Path>, positions: seq<nat>)
    requires Distinct(files) && InRange(positions, |files|)
    ensures RetainedPaths(files, set p | p in Picked(files, positions)) == Without(files, positions)
  {
    RemovalByPathPrefix(files, positions, |files|);
    assert files[..|files|] == files;
  }

  lemma {:induction false} RemovalByPathPrefix(files: seq<Path>, positions: seq<nat>, n: nat)
    requires n <= |files|
    requires Distinct(files) && InRange(positions, |files|)
    ensures RetainedPaths(files[..n], set p | p in Picked(files, positions)) == Without(files[..n], positions)
  {
    if n > 0 {
      RemovalByPathPrefix(files, positions, n - 1);
      assert files[..n][..n - 1] == files[..n - 1];
      var picked := Picked(files, positions);
      if n - 1 in positions {
        var i :| 0 <= i < |positions| && positions[i] == n - 1;
        assert picked[i] == files[n - 1];
      }
    }
  }
}
