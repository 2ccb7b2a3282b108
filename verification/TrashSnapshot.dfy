/**
  Finding one exact item in a Trash listing.

  A batch of restores shares one listing and takes each item out of it with
  `swap_remove`. The module shows that this cache agrees with listing the Trash
  again before every receipt, provided no two receipts name the same item.
 */
module TrashSnapshot {
  import opened Wrappers
  import opened IndexLists
  import opened TrashRecords
  import opened Trash

  /** A listed item. `origin` is None when its original path cannot be canonicalized. */
  datatype TrashItem = TrashItem(id: string, origin: Option<Path>, identity: nat)

  function Matching(items: seq<TrashItem>, id: string): seq<TrashItem> {
    if |items| == 0 then []
    else
      var m := |items| - 1;
      var before := Matching(items[..m], id);
      if items[m].id == id then before + [items[m]] else before
  }

  /** The item a receipt selects: the only one with its id, at its original path. */
  function Lookup(items: seq<TrashItem>, id: string, path: Path): Result<TrashItem, TrashRestoreError> {
    var matching := Matching(items, id);
    if |matching| == 0 then Err(MissingFromTrash)
    else if |matching| > 1 then Err(AmbiguousReceipt)
    else if matching[0].origin != Some(path) then Err(InvalidReceipt)
    else Ok(matching[0])
  }

  /** The first position holding `id`, or the length when there is none. */
  function FirstIndex(items: seq<TrashItem>, id: string): (i: nat)
    ensures i <= |items|
    ensures i < |items| ==> items[i].id == id
  {
    if |items| == 0 then 0
    else
      var m := |items| - 1;
      var i := FirstIndex(items[..m], id);
      if i < m || items[m].id == id then i else m + 1
  }

  /** Rust's `Vec::swap_remove`: the last element fills the hole. */
  function SwapRemove<T>(s: seq<T>, i: nat): seq<T>
    requires i < |s|
  {
    s[i := s[|s| - 1]][..|s| - 1]
  }

  function Remaining(items: seq<TrashItem>, id: string, path: Path): seq<TrashItem> {
    if Lookup(items, id, path).Ok? && FirstIndex(items, id) < |items| then SwapRemove(items, FirstIndex(items, id))
    else items
  }

  lemma {:induction false} MatchingCounts(items: seq<TrashItem>, id: string, item: TrashItem)
    ensures multiset(Matching(items, id))[item] == if item.id == id then multiset(items)[item] else 0
  {
    if |items| > 0 {
      var m := |items| - 1;
      assert items == items[..m] + [items[m]];
      MatchingCounts(items[..m], id, item);
    }
  }

  /** A position with the wanted id is one of the matches; a first position exists when there is a match. */
  lemma {:induction false} FirstIsMatching(items: seq<TrashItem>, id: string)
    ensures FirstIndex(items, id) < |items| <==> |Matching(items, id)| > 0
    ensures |Matching(items, id)| > 0 ==> items[FirstIndex(items, id)] == Matching(items, id)[0]
  {
    if |items| > 0 {
      FirstIsMatching(items[..|items| - 1], id);
    }
  }

  lemma SwapRemoveTakesOne<T>(s: seq<T>, i: nat)
    requires i < |s|
    ensures multiset(SwapRemove(s, i)) == multiset(s) - multiset{s[i]}
  {
    var m := |s| - 1;
    assert s == s[..m] + [s[m]];
    if i < m {
      assert SwapRemove(s, i) == s[..m][i := s[m]];
      var hole := s[..i] + s[i + 1..m];
      assert s[..m] == s[..i] + [s[i]] + s[i + 1..m];
      assert s[..m][i := s[m]] == s[..i] + [s[m]] + s[i + 1..m];
    } else {
      assert SwapRemove(s, i) == s[..m];
    }
  }

  /** Taking an item shrinks the listing by exactly that item, and only on success. */
  lemma RemainingItems(items: seq<TrashItem>, id: string, path: Path)
    ensures var r := Lookup(items, id, path);
      multiset(Remaining(items, id, path)) ==
      multiset(items) - (if r.Ok? then multiset{r.value} else multiset{})
  {
    FirstIsMatching(items, id);
    if FirstIndex(items, id) < |items| {
      SwapRemoveTakesOne(items, FirstIndex(items, id));
    }
  }

  /** Two listings that hold the same items under one id select alike, whatever their order. */
  lemma LookupDependsOnMatches(a: seq<TrashItem>, b: seq<TrashItem>, id: string, path: Path)
    requires forall item: TrashItem :: item.id == id ==> multiset(a)[item] == multiset(b)[item]
    ensures Lookup(a, id, path) == Lookup(b, id, path)
  {
    var ma, mb := Matching(a, id), Matching(b, id);
    forall item: TrashItem
      ensures multiset(ma)[item] == multiset(mb)[item]
    {
      MatchingCounts(a, id, item);
      MatchingCounts(b, id, item);
    }
    assert multiset(ma) == multiset(mb);
    assert |ma| == |multiset(ma)| == |multiset(mb)| == |mb|;
    if |ma| == 1 {
      assert ma[0] in multiset(mb);
    }
  }

  lemma LookupHasId(items: seq<TrashItem>, id: string, path: Path)
    requires Lookup(items, id, path).Ok?
    ensures Lookup(items, id, path).value.id == id
    ensures Lookup(items, id, path).value in multiset(items)
  {
    FirstIsMatching(items, id);
    assert items[FirstIndex(items, id)] in multiset(items);
  }

  // ----- one shared listing

  class Listing {
    var items: seq<TrashItem>

    constructor (items: seq<TrashItem>)
      ensures this.items == items
    {
      this.items := items;
    }

    /** Select the receipt's item and take it out of the listing. */
    method TakeExactTrashItem(expectedId: string, originalPath: Path)
      returns (r: Result<TrashItem, TrashRestoreError>)
      modifies this
      ensures r == Lookup(old(items), expectedId, originalPath)
      ensures items == Remaining(old(items), expectedId, originalPath)
      ensures r.Err? ==> items == old(items)
    {
      var index, matches := |items|, 0;
      for i := 0 to |items|
        invariant matches == |Matching(items[..i], expectedId)|
        invariant index == if matches == 0 then |items| else FirstIndex(items[..i], expectedId)
        invariant matches == 0 <==> FirstIndex(items[..i], expectedId) == i
      {
        assert items[..i + 1][..i] == items[..i];
        if items[i].id == expectedId {
          if matches == 0 {
            index := i;
          }
          matches := matches + 1;
        }
      }
      assert items[..|items|] == items;
      FirstIsMatching(items, expectedId);
      if matches == 0 {
        return Err(MissingFromTrash);
      }
      if matches > 1 {
        return Err(AmbiguousReceipt);
      }
      if items[index].origin != Some(originalPath) {
        return Err(InvalidReceipt);
      }
      r := Ok(items[index]);
      items := items[index := items[|items| - 1]][..|items| - 1];
    }
  }

  // ----- a batch against a shared listing, and against fresh listings

  /** What the platform holds: the items in the Trash and the rest of the file system. */
  datatype World<FS> = World(bin: multiset<TrashItem>, fs: FS)

  /** The platform's restore of one item; None is success. */
  type Platform<!FS> = (TrashItem, FS) -> (Option<TrashRestoreError>, FS)

  /** Restore one selected item; only a success takes it out of the Trash. */
  function RestoreItem<FS>(
    found: Result<TrashItem, TrashRestoreError>, source: nat, w: World<FS>, platform: Platform<FS>
  ): (Attempt, World<FS>) {
    match found
    case Err(error) => (Failed(error), w)
    case Ok(item) =>
      if item.identity != source then (Failed(InvalidReceipt), w)
      else
        var (failure, fs) := platform(item, w.fs);
        match failure
        case None => (Restored, World(w.bin - multiset{item}, fs))
        case Some(error) => (Failed(error), World(w.bin, fs))
  }

  predicate Restorable(receipt: TrashReceipt) {
    receipt.platformId.Some? && receipt.restoreSource.Some?
  }

  /** Restore against the shared listing, which shrinks whether or not the restore succeeds. */
  function FromSnapshot<FS>(
    receipt: TrashReceipt, state: (seq<TrashItem>, World<FS>), platform: Platform<FS>
  ): (Attempt, (seq<TrashItem>, World<FS>)) {
    if !Restorable(receipt) then (Failed(InvalidReceipt), state)
    else
      var id, path := receipt.platformId.value, receipt.originalPath;
      var (attempt, w) := RestoreItem(Lookup(state.0, id, path), receipt.restoreSource.value, state.1, platform);
      (attempt, (Remaining(state.0, id, path), w))
  }

  /** Restore after listing the Trash again. */
  function FromFreshListing<FS>(
    receipt: TrashReceipt, w: World<FS>, list: World<FS> -> seq<TrashItem>, platform: Platform<FS>
  ): (Attempt, World<FS>) {
    if !Restorable(receipt) then (Failed(InvalidReceipt), w)
    else
      RestoreItem(Lookup(list(w), receipt.platformId.value, receipt.originalPath), receipt.restoreSource.value, w, platform)
  }

  // ----- which restores succeed

  /** The item at `k` is the only one listed under the id. */
  ghost predicate OnlyAt(items: seq<TrashItem>, k: nat, id: string) {
    k < |items| && items[k].id == id && forall i :: 0 <= i < |items| && i != k ==> items[i].id != id
  }

  ghost predicate ListedTwice(items: seq<TrashItem>, id: string) {
    exists i, j :: 0 <= i < j < |items| && items[i].id == id && items[j].id == id
  }

  ghost predicate Listed(items: seq<TrashItem>, id: string) {
    exists i :: 0 <= i < |items| && items[i].id == id
  }

  /** How many items carry the id tells which of the three cases holds. */
  lemma {:induction false} MatchingCases(items: seq<TrashItem>, id: string)
    ensures |Matching(items, id)| > 0 <==> Listed(items, id)
    ensures |Matching(items, id)| > 1 <==> ListedTwice(items, id)
  {
    if |items| > 0 {
      var m := |items| - 1;
      MatchingCases(items[..m], id);
      assert forall i :: 0 <= i < m ==> items[..m][i] == items[i];
      if items[m].id == id && Listed(items[..m], id) {
        var i :| 0 <= i < m && items[..m][i].id == id;
        assert items[i].id == id;
      }
    }
  }

  lemma {:induction false} MatchingOnly(items: seq<TrashItem>, k: nat, id: string)
    requires OnlyAt(items, k, id)
    ensures Matching(items, id) == [items[k]]
  {
    var m := |items| - 1;
    if k < m {
      MatchingOnly(items[..m], k, id);
    } else {
      MatchingCases(items[..m], id);
      assert forall i :: 0 <= i < m ==> items[..m][i] == items[i];
      assert Matching(items[..m], id) == [];
    }
  }

  lemma OneOfThree(items: seq<TrashItem>, id: string)
    ensures !Listed(items, id) || ListedTwice(items, id) || exists k: nat :: OnlyAt(items, k, id)
  {
    if Listed(items, id) && !ListedTwice(items, id) {
      var k :| 0 <= k < |items| && items[k].id == id;
      assert OnlyAt(items, k, id);
    }
  }

  /** The receipt carries an id and an object, and the item at `k` is that object at its original path under an id of its own. */
  ghost predicate Identifies(receipt: TrashReceipt, items: seq<TrashItem>, k: nat) {
    && receipt.platformId.Some? && OnlyAt(items, k, receipt.platformId.value)
    && items[k].origin == Some(receipt.originalPath)
    && receipt.restoreSource == Some(items[k].identity)
  }

  /** The file system and the Trash after the platform was asked for one item. */
  ghost predicate Asked<FS>(
    attempt: Attempt, after: World<FS>, item: TrashItem, w: World<FS>, platform: Platform<FS>
  ) {
    && after.fs == platform(item, w.fs).1
    && match platform(item, w.fs).0
       case None => attempt == Restored && after.bin == w.bin - multiset{item}
       case Some(error) => attempt == Failed(error) && after.bin == w.bin
  }

  /** Why a receipt is refused before the platform is asked. */
  ghost function Refusal(receipt: TrashReceipt, items: seq<TrashItem>): TrashRestoreError {
    if receipt.platformId.None? || receipt.restoreSource.None? then InvalidReceipt
    else if !Listed(items, receipt.platformId.value) then MissingFromTrash
    else if ListedTwice(items, receipt.platformId.value) then AmbiguousReceipt
    else InvalidReceipt
  }

  /**
    A receipt reaches the platform exactly when one listed item alone carries its id, lies
    at its original path and is its object. The platform's answer is then the result, and
    only its success takes that item out of the Trash. Any other receipt is refused with
    the reason, and the Trash and the file system stay as they were.
   */
  lemma RestoreReaches<FS>(receipt: TrashReceipt, items: seq<TrashItem>, w: World<FS>, platform: Platform<FS>)
    ensures var (attempt, (_, after)) := FromSnapshot(receipt, (items, w), platform);
      && (forall k: nat :: Identifies(receipt, items, k) ==> Asked(attempt, after, items[k], w, platform))
      && ((forall k: nat :: !Identifies(receipt, items, k)) ==>
            attempt == Failed(Refusal(receipt, items)) && after == w)
  {
    if Restorable(receipt) {
      var id := receipt.platformId.value;
      MatchingCases(items, id);
      OneOfThree(items, id);
      forall k: nat | OnlyAt(items, k, id)
        ensures Matching(items, id) == [items[k]]
      {
        MatchingOnly(items, k, id);
      }
      if Listed(items, id) && !ListedTwice(items, id) {
        var k: nat :| OnlyAt(items, k, id);
        assert Identifies(receipt, items, k) <==>
               items[k].origin == Some(receipt.originalPath) && receipt.restoreSource == Some(items[k].identity);
      }
    }
  }

  /** The same of a restore that lists the Trash again. */
  lemma FreshRestoreReaches<FS>(
    receipt: TrashReceipt, w: World<FS>, list: World<FS> -> seq<TrashItem>, platform: Platform<FS>
  )
    ensures var (attempt, after) := FromFreshListing(receipt, w, list, platform);
      && (forall k: nat :: Identifies(receipt, list(w), k) ==> Asked(attempt, after, list(w)[k], w, platform))
      && ((forall k: nat :: !Identifies(receipt, list(w), k)) ==>
            attempt == Failed(Refusal(receipt, list(w))) && after == w)
  {
    RestoreReaches(receipt, list(w), w, platform);
  }

  /** A restore succeeds exactly when its receipt identifies a listed item and the platform restores that item. */
  lemma RestoredExactly<FS>(receipt: TrashReceipt, items: seq<TrashItem>, w: World<FS>, platform: Platform<FS>)
    ensures FromSnapshot(receipt, (items, w), platform).0 == Restored <==>
      exists k: nat :: Identifies(receipt, items, k) && platform(items[k], w.fs).0 == None
  {
    RestoreReaches(receipt, items, w, platform);
    hide FromSnapshot;
    if k: nat :| Identifies(receipt, items, k) {
      forall other: nat | Identifies(receipt, items, other)
        ensures other == k
      {
      }
    }
  }

  function SharedBatch<FS>(
    receipts: seq<TrashReceipt>, items: seq<TrashItem>, w: World<FS>, platform: Platform<FS>
  ): (seq<Attempt>, (seq<TrashItem>, World<FS>)) {
    RunRestores(receipts, (items, w), (receipt, state) => FromSnapshot(receipt, state, platform))
  }

  function FreshBatch<FS>(
    receipts: seq<TrashReceipt>, w: World<FS>, list: World<FS> -> seq<TrashItem>, platform: Platform<FS>
  ): (seq<Attempt>, World<FS>) {
    RunRestores(receipts, w, (receipt, state) => FromFreshListing(receipt, state, list, platform))
  }

  /** No two receipts that can be restored carry the same platform id. */
  ghost predicate DistinctIds(receipts: seq<TrashReceipt>) {
    forall i, j :: 0 <= i < j < |receipts| && Restorable(receipts[i]) && Restorable(receipts[j]) ==>
      receipts[i].platformId != receipts[j].platformId
  }

  /** The receipt names an item with this id. */
  predicate Names(receipt: TrashReceipt, id: string) {
    Restorable(receipt) && receipt.platformId == Some(id)
  }

  /** A listing shows exactly the Trash, in any order. */
  ghost predicate Lists<FS(!new)>(list: World<FS> -> seq<TrashItem>) {
    forall w :: multiset(list(w)) == w.bin
  }

  /** The listing still shows every item that none of the receipts names as the Trash holds it. */
  ghost predicate InStep<FS>(receipts: seq<TrashReceipt>, items: seq<TrashItem>, w: World<FS>) {
    forall item: TrashItem :: (forall r :: r in receipts ==> !Names(r, item.id)) ==>
      multiset(items)[item] == w.bin[item]
  }

  lemma StaysInStep<FS>(receipts: seq<TrashReceipt>, last: TrashReceipt, items: seq<TrashItem>, w: World<FS>)
    requires InStep(receipts, items, w)
    ensures InStep(receipts + [last], items, w)
  {
    assert forall r :: r in receipts ==> r in receipts + [last];
  }

  /** Taking an item of the last receipt's id out of the listing, the Trash or both keeps the rest in step. */
  lemma TakingStaysInStep<FS>(
    receipts: seq<TrashReceipt>, last: TrashReceipt, items: seq<TrashItem>, w: World<FS>,
    taken: TrashItem, left: seq<TrashItem>, after: World<FS>
  )
    requires InStep(receipts, items, w) && Names(last, taken.id)
    requires multiset(left) == multiset(items) - multiset{taken}
    requires after.bin == w.bin || after.bin == w.bin - multiset{taken}
    ensures InStep(receipts + [last], left, after)
  {
    var all := receipts + [last];
    forall item: TrashItem | forall r :: r in all ==> !Names(r, item.id)
      ensures multiset(left)[item] == after.bin[item]
    {
      assert all[|receipts|] == last;
      assert forall r :: r in receipts ==> r in all;
    }
  }

  /** One more receipt, with an id of its own, selects alike and keeps the listing in step. */
  lemma OneReceiptAgrees<FS(!new)>(
    receipts: seq<TrashReceipt>, last: TrashReceipt, items: seq<TrashItem>, w: World<FS>,
    list: World<FS> -> seq<TrashItem>, platform: Platform<FS>
  )
    requires InStep(receipts, items, w) && multiset(list(w)) == w.bin
    requires Restorable(last) ==> forall r :: r in receipts ==> !Names(r, last.platformId.value)
    ensures var shared := FromSnapshot(last, (items, w), platform);
      && (shared.0, shared.1.1) == FromFreshListing(last, w, list, platform)
      && InStep(receipts + [last], shared.1.0, shared.1.1)
  {
    hide Lookup, Remaining, InStep;
    var (left, after) := FromSnapshot(last, (items, w), platform).1;
    StaysInStep(receipts, last, items, w);
    if Restorable(last) {
      var id, path := last.platformId.value, last.originalPath;
      SelectsAlike(receipts, items, w, list(w), id, path);
      RemainingItems(items, id, path);
      var found := Lookup(items, id, path);
      if found.Ok? {
        LookupHasId(items, id, path);
        TakingStaysInStep(receipts, last, items, w, found.value, left, after);
      } else {
        NothingTaken(items, id, path);
      }
    }
  }

  lemma NothingTaken(items: seq<TrashItem>, id: string, path: Path)
    requires Lookup(items, id, path).Err?
    ensures Remaining(items, id, path) == items
  {
  }

  lemma SelectsAlike<FS>(
    receipts: seq<TrashReceipt>, items: seq<TrashItem>, w: World<FS>, listed: seq<TrashItem>, id: string, path: Path
  )
    requires InStep(receipts, items, w) && multiset(listed) == w.bin
    requires forall r :: r in receipts ==> !Names(r, id)
    ensures Lookup(items, id, path) == Lookup(listed, id, path)
  {
    LookupDependsOnMatches(items, listed, id, path);
  }

  /**
    One shared, shrinking listing gives every receipt the result that listing the
    Trash again would have given, and leaves the same Trash and file system.
   */
  lemma {:induction false} SharedListingAgrees<FS(!new)>(
    receipts: seq<TrashReceipt>, items: seq<TrashItem>, w: World<FS>,
    list: World<FS> -> seq<TrashItem>, platform: Platform<FS>
  )
    requires DistinctIds(receipts) && Lists(list) && multiset(items) == w.bin
    ensures var shared, relisted := SharedBatch(receipts, items, w, platform), FreshBatch(receipts, w, list, platform);
      && shared.0 == relisted.0
      && shared.1.1 == relisted.1
      && InStep(receipts, shared.1.0, relisted.1)
  {
    if |receipts| > 0 {
      var m := |receipts| - 1;
      SharedListingAgrees(receipts[..m], items, w, list, platform);
      assert receipts == receipts[..m] + [receipts[m]];
      var before := SharedBatch(receipts[..m], items, w, platform).1;
      OneReceiptAgrees(receipts[..m], receipts[m], before.0, before.1, list, platform);
    }
  }

  // ----- when receipts share an id

  /** The result at `j` is that of a restore in the state the earlier ones left. */
  lemma {:induction false} AttemptAt<S>(
    receipts: seq<TrashReceipt>, state: S, restore: (TrashReceipt, S) -> (Attempt, S), j: nat
  )
    requires j < |receipts|
    ensures RunRestores(receipts, state, restore).0[j]
            == restore(receipts[j], RunRestores(receipts[..j], state, restore).1).0
  {
    var m := |receipts| - 1;
    if j < m {
      AttemptAt(receipts[..m], state, restore, j);
      assert receipts[..m][..j] == receipts[..j];
    }
  }

  function RefuseEveryItem<FS>(item: TrashItem, fs: FS): (Option<TrashRestoreError>, FS) {
    (Some(OperationFailed), fs)
  }

  /** The receipt selects the item, so that it leaves a listing whether or not its restore succeeds. */
  predicate Takes(receipt: TrashReceipt, item: TrashItem) {
    Names(receipt, item.id) && item.origin == Some(receipt.originalPath)
  }

  lemma OneItemLookup(item: TrashItem, id: string, path: Path)
    ensures Lookup([item], id, path) ==
      if item.id != id then Err(MissingFromTrash)
      else if item.origin != Some(path) then Err(InvalidReceipt)
      else Ok(item)
    ensures Remaining([item], id, path) == if item.id == id && item.origin == Some(path) then [] else [item]
    ensures Lookup([], id, path) == Err(MissingFromTrash) && Remaining([], id, path) == []
  {
    assert [item][..0] == [];
    assert FirstIndex([], id) == 0 && Matching([], id) == [];
    assert Matching([item], id) == if item.id == id then [item] else [];
    assert SwapRemove([item], 0) == [];
  }

  /** A shared listing of one item that no restore gets out of the Trash: it holds the item until a receipt selects it. */
  lemma {:induction false} SharedOneItem<FS>(receipts: seq<TrashReceipt>, item: TrashItem, w: World<FS>)
    ensures SharedBatch(receipts, [item], w, RefuseEveryItem).1
            == (if exists r :: r in receipts && Takes(r, item) then [] else [item], w)
  {
    if |receipts| > 0 {
      var m := |receipts| - 1;
      SharedOneItem(receipts[..m], item, w);
      assert receipts == receipts[..m] + [receipts[m]];
      assert forall r :: r in receipts <==> r in receipts[..m] || r == receipts[m];
      var before := SharedBatch(receipts[..m], [item], w, RefuseEveryItem).1;
      assert SharedBatch(receipts, [item], w, RefuseEveryItem).1
             == FromSnapshot(receipts[m], before, RefuseEveryItem).1;
      OneItemStep(receipts[m], item, w);
    }
  }

  /** One receipt against that listing, or against one already empty. */
  lemma OneItemStep<FS>(receipt: TrashReceipt, item: TrashItem, w: World<FS>)
    ensures FromSnapshot(receipt, ([item], w), RefuseEveryItem).1 == (if Takes(receipt, item) then [] else [item], w)
    ensures FromSnapshot(receipt, ([], w), RefuseEveryItem).1 == ([], w)
  {
    hide Lookup, Remaining;
    if Restorable(receipt) {
      OneItemLookup(item, receipt.platformId.value, receipt.originalPath);
    }
  }

  /** Fresh listings of that Trash keep showing the item. */
  lemma {:induction false} FreshOneItem<FS>(
    receipts: seq<TrashReceipt>, w: World<FS>, list: World<FS> -> seq<TrashItem>
  )
    ensures FreshBatch(receipts, w, list, RefuseEveryItem).1 == w
  {
    if |receipts| > 0 {
      FreshOneItem(receipts[..|receipts| - 1], w, list);
    }
  }

  /** A second receipt with the id of an earlier one finds nothing in the shared listing and something in a fresh one. */
  lemma SharedIdDiffers<FS>(
    receipts: seq<TrashReceipt>, i: nat, j: nat, w: World<FS>, list: World<FS> -> seq<TrashItem>, item: TrashItem
  )
    requires i < j < |receipts| && Restorable(receipts[i]) && Restorable(receipts[j])
    requires receipts[i].platformId == receipts[j].platformId == Some(item.id)
    requires item.origin == Some(receipts[i].originalPath) && list(w) == [item]
    ensures SharedBatch(receipts, [item], w, RefuseEveryItem).0[j] == Failed(MissingFromTrash)
    ensures FreshBatch(receipts, w, list, RefuseEveryItem).0[j] != Failed(MissingFromTrash)
  {
    var shared := (receipt: TrashReceipt, state: (seq<TrashItem>, World<FS>)) =>
      FromSnapshot(receipt, state, RefuseEveryItem);
    var relisted := (receipt: TrashReceipt, state: World<FS>) => FromFreshListing(receipt, state, list, RefuseEveryItem);
    SharedOneItem(receipts[..j], item, w);
    assert receipts[..j][i] == receipts[i] && Takes(receipts[i], item);
    OneItemLookup(item, item.id, receipts[j].originalPath);
    AttemptAt(receipts, ([item], w), shared, j);
    FreshOneItem(receipts[..j], w, list);
    AttemptAt(receipts, w, relisted, j);
  }

  /** Some listing of a Trash: its items in any order. */
  ghost function SomeOrder(bin: multiset<TrashItem>): (items: seq<TrashItem>)
    ensures multiset(items) == bin
  {
    if bin == multiset{} then []
    else
      var item :| item in bin;
      var items := SomeOrder(bin - multiset{item});
      [item] + items
  }

  /** The shared listing answers every receipt as fresh listings would, in this Trash, listed so, on this platform. */
  ghost predicate Agrees<FS(!new)>(
    receipts: seq<TrashReceipt>, items: seq<TrashItem>, w: World<FS>,
    list: World<FS> -> seq<TrashItem>, platform: Platform<FS>
  ) {
    Lists(list) && multiset(items) == w.bin ==>
      SharedBatch(receipts, items, w, platform).0 == FreshBatch(receipts, w, list, platform).0
  }

  /**
    A batch against one shared listing agrees with relisting before every receipt,
    whatever the Trash holds and the platform does, exactly when no two receipts that
    can be restored carry the same platform id.
   */
  lemma AgreesExactly<FS(!new)>(receipts: seq<TrashReceipt>, fs: FS)
    ensures (forall items, w: World<FS>, list, platform :: Agrees(receipts, items, w, list, platform))
            <==> DistinctIds(receipts)
  {
    if DistinctIds(receipts) {
      forall items, w: World<FS>, list, platform
        ensures Agrees(receipts, items, w, list, platform)
      {
        if Lists(list) && multiset(items) == w.bin {
          SharedListingAgrees(receipts, items, w, list, platform);
        }
      }
    } else {
      var i: nat, j: nat :| i < j < |receipts| && Restorable(receipts[i]) && Restorable(receipts[j])
                            && receipts[i].platformId == receipts[j].platformId;
      SharedIdDisagrees(receipts, i, j, fs);
    }
  }

  lemma OnlyOrder(item: TrashItem)
    ensures SomeOrder(multiset{item}) == [item]
  {
    var items := SomeOrder(multiset{item});
    assert |items| == |multiset(items)| == 1;
    assert items[0] in multiset(items);
  }

  lemma ListsInSomeOrder<FS(!new)>(list: World<FS> -> seq<TrashItem>)
    requires forall w :: list(w) == SomeOrder(w.bin)
    ensures Lists(list)
  {
    forall w
      ensures multiset(list(w)) == w.bin
    {
      assert list(w) == SomeOrder(w.bin);
    }
  }

  lemma SharedIdDisagrees<FS(!new)>(receipts: seq<TrashReceipt>, i: nat, j: nat, fs: FS)
    requires i < j < |receipts| && Restorable(receipts[i]) && Restorable(receipts[j])
    requires receipts[i].platformId == receipts[j].platformId
    ensures exists items, w: World<FS>, list, platform :: !Agrees(receipts, items, w, list, platform)
  {
    var item := TrashItem(receipts[i].platformId.value, Some(receipts[i].originalPath), receipts[i].restoreSource.value);
    var w := World(multiset{item}, fs);
    var list := (world: World<FS>) => SomeOrder(world.bin);
    hide SomeOrder, SharedBatch, FreshBatch, Lists, Agrees;
    OnlyOrder(item);
    ListsInSomeOrder(list);
    SharedIdDiffers(receipts, i, j, w, list, item);
    OneDisagreement(receipts, [item], w, list, RefuseEveryItem, j);
  }

  lemma OneDisagreement<FS(!new)>(
    receipts: seq<TrashReceipt>, items: seq<TrashItem>, w: World<FS>,
    list: World<FS> -> seq<TrashItem>, platform: Platform<FS>, j: nat
  )
    requires Lists(list) && multiset(items) == w.bin && j < |receipts|
    requires SharedBatch(receipts, items, w, platform).0[j] != FreshBatch(receipts, w, list, platform).0[j]
    ensures !Agrees(receipts, items, w, list, platform)
  {
    hide SharedBatch, FreshBatch, Lists;
  }

  // ----- capturing a receipt

  datatype CaptureStatus = NoCandidate | AmbiguousCandidate | IdentityMismatch

  function SameOrigin(items: seq<TrashItem>, path: Path): seq<TrashItem> {
    if |items| == 0 then []
    else
      var m := |items| - 1;
      var before := SameOrigin(items[..m], path);
      if items[m].origin == Some(path) then before + [items[m]] else before
  }

  function Candidates(items: seq<TrashItem>, path: Path, matches: TrashItem -> bool): seq<TrashItem> {
    if |items| == 0 then []
    else
      var m := |items| - 1;
      var before := Candidates(items[..m], path, matches);
      if items[m].origin == Some(path) && matches(items[m]) then before + [items[m]] else before
  }

  lemma {:induction false} CandidatesGrow(items: seq<TrashItem>, n: nat, path: Path, matches: TrashItem -> bool)
    requires n <= |items|
    ensures |Candidates(items[..n], path, matches)| <= |Candidates(items, path, matches)|
  {
    if n == |items| {
      assert items[..n] == items;
    } else {
      var m := |items| - 1;
      assert items[..m][..n] == items[..n];
      CandidatesGrow(items[..m], n, path, matches);
    }
  }

  /** The item at `i` lies at the path and is the moved object. */
  ghost predicate IsCandidate(items: seq<TrashItem>, i: nat, path: Path, matches: TrashItem -> bool) {
    i < |items| && items[i].origin == Some(path) && matches(items[i])
  }

  ghost predicate HasCandidate(items: seq<TrashItem>, path: Path, matches: TrashItem -> bool) {
    exists i: nat :: IsCandidate(items, i, path, matches)
  }

  ghost predicate HasTwoCandidates(items: seq<TrashItem>, path: Path, matches: TrashItem -> bool) {
    exists i: nat, j: nat :: i < j && IsCandidate(items, i, path, matches) && IsCandidate(items, j, path, matches)
  }

  ghost predicate HasOrigin(items: seq<TrashItem>, path: Path) {
    exists i :: 0 <= i < |items| && items[i].origin == Some(path)
  }

  /** One more item at the end. */
  lemma OneMoreCandidate(items: seq<TrashItem>, path: Path, matches: TrashItem -> bool)
    requires |items| > 0
    ensures var m := |items| - 1;
      && (HasCandidate(items, path, matches) <==>
            HasCandidate(items[..m], path, matches) || IsCandidate(items, m, path, matches))
      && (HasTwoCandidates(items, path, matches) <==>
            HasTwoCandidates(items[..m], path, matches)
            || (HasCandidate(items[..m], path, matches) && IsCandidate(items, m, path, matches)))
      && (HasOrigin(items, path) <==> HasOrigin(items[..m], path) || items[m].origin == Some(path))
  {
    var m := |items| - 1;
    var before := items[..m];
    forall i: nat
      ensures IsCandidate(before, i, path, matches) <==> i < m && IsCandidate(items, i, path, matches)
      ensures i > m ==> !IsCandidate(items, i, path, matches)
    {
    }
    hide IsCandidate;
    if i: nat :| IsCandidate(before, i, path, matches) {
      assert IsCandidate(items, i, path, matches);
    }
    if HasTwoCandidates(before, path, matches) {
      var i: nat, j: nat :| i < j && IsCandidate(before, i, path, matches) && IsCandidate(before, j, path, matches);
      assert IsCandidate(items, i, path, matches) && IsCandidate(items, j, path, matches);
    }
    if i :| 0 <= i < m && before[i].origin == Some(path) {
      assert items[i].origin == Some(path);
    }
    if i :| 0 <= i < m && items[i].origin == Some(path) {
      assert before[i].origin == Some(path);
    }
  }

  lemma {:induction false} CandidateCases(items: seq<TrashItem>, path: Path, matches: TrashItem -> bool)
    ensures |Candidates(items, path, matches)| > 0 <==> HasCandidate(items, path, matches)
    ensures |Candidates(items, path, matches)| > 1 <==> HasTwoCandidates(items, path, matches)
    ensures SameOrigin(items, path) != [] <==> HasOrigin(items, path)
  {
    if |items| > 0 {
      hide HasCandidate, HasTwoCandidates, HasOrigin;
      CandidateCases(items[..|items| - 1], path, matches);
      OneMoreCandidate(items, path, matches);
    }
  }

  lemma {:induction false} OnlyCandidate(items: seq<TrashItem>, k: nat, path: Path, matches: TrashItem -> bool)
    requires IsCandidate(items, k, path, matches) && |Candidates(items, path, matches)| == 1
    ensures Candidates(items, path, matches) == [items[k]]
  {
    var m := |items| - 1;
    if k < m {
      CandidateCases(items[..m], path, matches);
      assert IsCandidate(items[..m], k, path, matches);
      OnlyCandidate(items[..m], k, path, matches);
    }
  }

  /** The captured id, or why there is none. */
  function Captured(items: seq<TrashItem>, path: Path, matches: TrashItem -> bool): Result<string, CaptureStatus> {
    var candidates := Candidates(items, path, matches);
    if |candidates| == 1 then Ok(candidates[0].id)
    else if |candidates| > 1 then Err(AmbiguousCandidate)
    else if SameOrigin(items, path) != [] then Err(IdentityMismatch)
    else Err(NoCandidate)
  }

  /** Capturing needs exactly one candidate; otherwise there are more, or none at the path, or only other objects there. */
  lemma CaptureExactly(items: seq<TrashItem>, path: Path, matches: TrashItem -> bool)
    ensures var r := Captured(items, path, matches);
      && (r == Err(AmbiguousCandidate) <==> HasTwoCandidates(items, path, matches))
      && (r == Err(NoCandidate) <==> !HasOrigin(items, path))
      && (r == Err(IdentityMismatch) <==> HasOrigin(items, path) && !HasCandidate(items, path, matches))
      && (r.Ok? ==> forall i: nat :: IsCandidate(items, i, path, matches) ==> items[i].id == r.value)
  {
    CandidateCases(items, path, matches);
    forall k: nat | IsCandidate(items, k, path, matches) && |Candidates(items, path, matches)| == 1
      ensures Candidates(items, path, matches) == [items[k]]
    {
      OnlyCandidate(items, k, path, matches);
    }
    hide Candidates, SameOrigin;
    if |Candidates(items, path, matches)| > 0 {
      var k: nat :| IsCandidate(items, k, path, matches);
      assert items[k].origin == Some(path);
    }
  }

  /** Capture the id of the only item at the path whose object is the moved one. */
  method ClassifyTrashItemId(items: seq<TrashItem>, originalPath: Path, matches: TrashItem -> bool)
    returns (r: Result<string, CaptureStatus>)
    ensures r == Captured(items, originalPath, matches)
  {
    var sawSameOrigin := false;
    var captured: Option<string> := None;
    for i := 0 to |items|
      invariant sawSameOrigin <==> SameOrigin(items[..i], originalPath) != []
      invariant captured.None? ==> Candidates(items[..i], originalPath, matches) == []
      invariant captured.Some? ==> |Candidates(items[..i], originalPath, matches)| == 1
      invariant captured.Some? ==> Candidates(items[..i], originalPath, matches)[0].id == captured.value
    {
      var item := items[i];
      assert items[..i + 1][..i] == items[..i];
      if item.origin != Some(originalPath) {
        continue;
      }
      sawSameOrigin := true;
      if !matches(item) {
        continue;
      }
      if captured.Some? {
        CandidatesGrow(items, i + 1, originalPath, matches);
        return Err(AmbiguousCandidate);
      }
      captured := Some(item.id);
    }
    assert items[..|items|] == items;
    match captured {
      case Some(id) => r := Ok(id);
      case None => r := Err(if sawSameOrigin then IdentityMismatch else NoCandidate);
    }
  }

  lemma {:induction false} CandidateIsListed(items: seq<TrashItem>, path: Path, matches: TrashItem -> bool, c: TrashItem)
    requires c in Candidates(items, path, matches)
    ensures c in items && c.origin == Some(path) && matches(c)
  {
    var m := |items| - 1;
    if c in Candidates(items[..m], path, matches) {
      CandidateIsListed(items[..m], path, matches, c);
    }
  }

  /**
    A captured id finds its own item again, at the same path and with a matching
    object, exactly when the listing holds no second item with that id.
   */
  lemma CapturedIdFindsItsItem(items: seq<TrashItem>, path: Path, matches: TrashItem -> bool)
    requires |Candidates(items, path, matches)| == 1
    ensures var item := Candidates(items, path, matches)[0];
      && matches(item)
      && (Lookup(items, item.id, path) == Ok(item) <==> |Matching(items, item.id)| == 1)
      && (Lookup(items, item.id, path).Ok? <==> |Matching(items, item.id)| == 1)
  {
    var item := Candidates(items, path, matches)[0];
    CandidateIsListed(items, path, matches, item);
    MatchingCounts(items, item.id, item);
    assert item in multiset(items);
    assert item in multiset(Matching(items, item.id));
    if |Matching(items, item.id)| == 1 {
      assert Matching(items, item.id)[0] == item;
    }
  }

  /** A listing of the same items in another order identifies the same item. */
  lemma IdentifiedElsewhere(receipt: TrashReceipt, items: seq<TrashItem>, listed: seq<TrashItem>, item: TrashItem)
    requires multiset(listed) == multiset(items) && receipt.platformId == Some(item.id)
    requires item in items && item.origin == Some(receipt.originalPath) && receipt.restoreSource == Some(item.identity)
    ensures |Matching(items, item.id)| == 1 ==> exists k: nat :: Identifies(receipt, listed, k) && listed[k] == item
    ensures |Matching(items, item.id)| != 1 ==> forall k: nat :: !Identifies(receipt, listed, k)
  {
    assert |Matching(listed, item.id)| == |Matching(items, item.id)| by {
      SameMatchCount(items, listed, item.id);
    }
    MatchingCases(listed, item.id);
    OneOfThree(listed, item.id);
    assert item in multiset(items) && item in multiset(listed);
    forall k: nat | OnlyAt(listed, k, item.id)
      ensures listed[k] == item && |Matching(listed, item.id)| == 1
    {
      MatchingOnly(listed, k, item.id);
    }
    if |Matching(items, item.id)| == 1 {
      var k: nat :| OnlyAt(listed, k, item.id);
      assert Identifies(receipt, listed, k);
    }
  }

  lemma SameMatchCount(a: seq<TrashItem>, b: seq<TrashItem>, id: string)
    requires multiset(a) == multiset(b)
    ensures |Matching(a, id)| == |Matching(b, id)|
  {
    forall item: TrashItem
      ensures multiset(Matching(a, id))[item] == multiset(Matching(b, id))[item]
    {
      MatchingCounts(a, id, item);
      MatchingCounts(b, id, item);
    }
    assert multiset(Matching(a, id)) == multiset(Matching(b, id));
    assert |Matching(a, id)| == |multiset(Matching(a, id))|;
  }

  /**
    What was captured can be undone: a receipt with the captured id and the moved object
    restores that item from any later listing of the same Trash, exactly when no second
    item carries the id and the platform succeeds.
   */
  lemma CapturedReceiptRestores<FS>(
    items: seq<TrashItem>, path: Path, source: nat, w: World<FS>, list: World<FS> -> seq<TrashItem>, platform: Platform<FS>
  )
    requires |Candidates(items, path, (item: TrashItem) => item.identity == source)| == 1
    requires multiset(list(w)) == multiset(items)
    ensures var item := Candidates(items, path, (item: TrashItem) => item.identity == source)[0];
      var (attempt, after) := FromFreshListing(TrashReceipt(path, Some(item.id), Some(source)), w, list, platform);
      && (attempt == Restored <==> |Matching(items, item.id)| == 1 && platform(item, w.fs).0 == None)
      && (attempt == Restored ==> after == World(w.bin - multiset{item}, platform(item, w.fs).1))
  {
    var matches := (item: TrashItem) => item.identity == source;
    var item := Candidates(items, path, matches)[0];
    CandidateIsListed(items, path, matches, item);
    var receipt := TrashReceipt(path, Some(item.id), Some(source));
    IdentifiedElsewhere(receipt, items, list(w), item);
    FreshRestoreReaches(receipt, w, list, platform);
    hide FromFreshListing, Identifies, Candidates;
  }

  /** A second item with the captured id need not be a candidate itself. */
  lemma IdListedTwice(captured: TrashItem, other: TrashItem, path: Path, matches: TrashItem -> bool)
    requires captured.origin == Some(path) && matches(captured)
    requires other.id == captured.id && !matches(other)
    ensures Candidates([captured, other], path, matches) == [captured]
    ensures Lookup([captured, other], captured.id, path) == Err(AmbiguousReceipt)
  {
    assert [captured, other][..1] == [captured] && [captured][..0] == [];
    assert Candidates([captured], path, matches) == [captured];
    assert Matching([captured], captured.id) == [captured];
  }

  /** An item from elsewhere with the captured id keeps the captured one from being found. */
  lemma CapturedIdAmbiguous(matches: TrashItem -> bool)
    requires matches(TrashItem("x", Some("/a"), 0)) && !matches(TrashItem("x", Some("/b"), 1))
    ensures var items := [TrashItem("x", Some("/a"), 0), TrashItem("x", Some("/b"), 1)];
      && Candidates(items, "/a", matches) == [items[0]]
      && Lookup(items, items[0].id, "/a") == Err(AmbiguousReceipt)
  {
    hide Candidates, Lookup;
    IdListedTwice(TrashItem("x", Some("/a"), 0), TrashItem("x", Some("/b"), 1), "/a", matches);
  }
}
