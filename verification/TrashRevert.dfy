/**
  Moves to the Trash that fail.

  A failed move, and every move queued behind it, is put back at the index it was taken
  from, oldest first. The module says exactly when that restores the settled list, and
  that it never loses an entry.
 */
module TrashRevert {
  import opened Arith
  import opened Wrappers
  import opened IndexLists
  import opened TrashRecords
  import opened TrashQueue

  /** Put an entry back at the index it was taken from, unless it is listed again already. */
  function Revert(playlist: seq<Path>, move: Removal): seq<Path> {
    if move.path in playlist then playlist
    else InsertAt(playlist, Min(move.index, |playlist|), move.path)
  }

  /** A failed move and every move queued behind it, put back in the order they were submitted. */
  function RevertAll(playlist: seq<Path>, moves: seq<Removal>): seq<Path> {
    if |moves| == 0 then playlist
    else Revert(RevertAll(playlist, moves[..|moves| - 1]), moves[|moves| - 1])
  }

  /** The slot of each move's entry in the settled list. */
  function Slots(moves: seq<Removal>): (slots: seq<nat>)
    ensures |slots| == |moves|
  {
    if |moves| == 0 then []
    else [moves[0].index] + Opened(Slots(moves[1..]), moves[0].index)
  }

  /** Slots after one more entry goes in at `at`. */
  function Opened(slots: seq<nat>, at: nat): seq<nat> {
    seq(|slots|, i requires 0 <= i < |slots| => if slots[i] >= at then slots[i] + 1 else slots[i])
  }

  lemma CountBelowOne(at: nat, k: nat)
    ensures CountBelow([at], k) == if at < k then 1 else 0
  {
    assert [at][..0] == [];
    assert CountBelow([at][..0], k) == 0;
  }

  lemma OpenedFacts(slots: seq<nat>, at: nat)
    requires Distinct(slots)
    ensures Distinct([at] + Opened(slots, at))
    ensures Ranks([at], Opened(slots, at)) == slots
    ensures forall k :: k in Opened(slots, at) ==> k !in [at]
  {
    forall i | 0 <= i < |slots|
      ensures Rank([at], Opened(slots, at)[i]) == slots[i]
    {
      CountBelowOne(at, Opened(slots, at)[i]);
    }
  }

  lemma InsertedElsewhere(later: seq<Path>, at: nat, path: Path, slot: nat)
    requires at <= |later| && slot < |later|
    ensures var moved := if slot >= at then slot + 1 else slot;
      moved <= |later| && InsertAt(later, at, path)[moved] == later[slot]
  {
  }

  /** The moves' slots hold their entries. */
  lemma {:induction false} SlotsHold(playlist: seq<Path>, moves: seq<Removal>, m: nat)
    requires Submitted(playlist, moves) && m < |moves|
    ensures var s, slots := Settled(playlist, moves), Slots(moves);
      slots[m] < |s| && s[slots[m]] == moves[m].path
    decreases |moves|
  {
    var rest, at := moves[1..], moves[0].index;
    SettledLength(playlist, rest);
    FinishTakesOut(playlist, moves);
    if m > 0 {
      SlotsHold(playlist, rest, m - 1);
      InsertedElsewhere(Settled(playlist, rest), at, moves[0].path, Slots(rest)[m - 1]);
    }
  }

  /** The moves' slots are distinct and leave the playlist when taken out. */
  lemma {:induction false} SlotsFacts(playlist: seq<Path>, moves: seq<Removal>)
    requires Submitted(playlist, moves)
    ensures var s, slots := Settled(playlist, moves), Slots(moves);
      Distinct(slots) && Without(s, slots) == playlist
    decreases |moves|
  {
    if |moves| == 0 {
      WithoutNothing(playlist);
    } else {
      hide Settled, Submitted, Without, Opened, Ranks;
      var rest, at := moves[1..], moves[0].index;
      FinishTakesOut(playlist, moves);
      SlotsFacts(playlist, rest);
      OpenedFacts(Slots(rest), at);
      WithoutTwice(Settled(playlist, moves), [at], Opened(Slots(rest), at), Slots(rest));
    }
  }

  /** Move `m`, put back behind the moves before it, goes to its rank among the entries then listed. */
  ghost predicate InPlace(playlist: seq<Path>, moves: seq<Removal>, m: nat)
    requires m < |moves|
  {
    Min(moves[m].index, |playlist| + m) == Rank(Slots(moves)[m + 1..], Slots(moves)[m])
  }

  lemma {:induction false} RevertAllLength(playlist: seq<Path>, moves: seq<Removal>)
    ensures |RevertAll(playlist, moves)| <= |playlist| + |moves|
  {
    if |moves| > 0 {
      RevertAllLength(playlist, moves[..|moves| - 1]);
    }
  }

  lemma WithoutIsDistinct<T(!new)>(s: seq<T>, xs: seq<nat>)
    requires Distinct(s)
    ensures Distinct(Without(s, xs))
    ensures forall k :: k in xs && k < |s| ==> s[k] !in Without(s, xs)
  {
    KeptEmbeds(s, xs);
    var at := Kept(|s|, xs);
    forall k | k in xs && k < |s|
      ensures s[k] !in Without(s, xs)
    {
      if s[k] in Without(s, xs) {
        var i :| 0 <= i < |at| && s[at[i]] == s[k];
        KeptAvoids(|s|, xs, i);
        assert false;
      }
    }
  }

  lemma {:induction false} KeptAvoids(n: nat, xs: seq<nat>, i: nat)
    requires i < |Kept(n, xs)|
    ensures Kept(n, xs)[i] !in xs
  {
    if n > 0 {
      PositionsSnoc(n - 1);
      assert Positions(n)[..n - 1] == Positions(n - 1);
      if i < |Kept(n - 1, xs)| {
        KeptAvoids(n - 1, xs, i);
      }
    }
  }

  /** The settled list short of the moves from `m` on. */
  ghost function Short(playlist: seq<Path>, moves: seq<Removal>, m: nat): seq<Path>
    requires m <= |moves|
  {
    Without(Settled(playlist, moves), Slots(moves)[m..])
  }

  lemma ShortFacts(playlist: seq<Path>, moves: seq<Removal>, m: nat)
    requires Submitted(playlist, moves) && Distinct(Settled(playlist, moves)) && m < |moves|
    ensures var rank, w := Rank(Slots(moves)[m + 1..], Slots(moves)[m]), Short(playlist, moves, m);
      && |w| == |playlist| + m && 0 <= rank <= |w|
      && Short(playlist, moves, m + 1) == InsertAt(w, rank, moves[m].path)
      && Distinct(Short(playlist, moves, m + 1)) && moves[m].path !in w
  {
    var s, slots := Settled(playlist, moves), Slots(moves);
    SlotsFacts(playlist, moves);
    SlotsHold(playlist, moves, m);
    SettledLength(playlist, moves);
    var missing, others := slots[m..], slots[m + 1..];
    assert missing == [slots[m]] + others;
    PutBack(s, missing, others, slots[m]);
    WithoutIsDistinct(s, others);
    WithoutIsDistinct(s, missing);
    ShortLength(playlist, moves, m);
  }

  lemma ShortLength(playlist: seq<Path>, moves: seq<Removal>, m: nat)
    requires Submitted(playlist, moves) && m <= |moves|
    ensures |Short(playlist, moves, m)| == |playlist| + m
  {
    var s, slots := Settled(playlist, moves), Slots(moves);
    SlotsFacts(playlist, moves);
    SettledLength(playlist, moves);
    WithoutLength(s, slots[m..]);
    forall i | m <= i < |slots|
      ensures slots[i] < |s|
    {
      SlotsHold(playlist, moves, i);
    }
    AllBelow(slots[m..], |s|);
  }

  lemma {:induction false} AllBelow(xs: seq<nat>, k: nat)
    requires InRange(xs, k)
    ensures CountBelow(xs, k) == |xs|
  {
    if |xs| > 0 {
      AllBelow(xs[..|xs| - 1], k);
    }
  }

  /** One revert from the settled list short of one more move: right exactly when the move is in place. */
  lemma OneRevert(playlist: seq<Path>, moves: seq<Removal>, m: nat, r: seq<Path>)
    requires Submitted(playlist, moves) && Distinct(Settled(playlist, moves)) && m < |moves|
    requires |r| <= |playlist| + m
    ensures Revert(r, moves[m]) == Short(playlist, moves, m + 1) <==>
      r == Short(playlist, moves, m) && InPlace(playlist, moves, m)
  {
    hide Settled, Submitted, Short, Distinct;
    ShortFacts(playlist, moves, m);
    ShortLength(playlist, moves, m + 1);
    var w, target, x := Short(playlist, moves, m), Short(playlist, moves, m + 1), moves[m].path;
    var rank := Rank(Slots(moves)[m + 1..], Slots(moves)[m]);
    if Revert(r, moves[m]) == target {
      var c := Min(moves[m].index, |r|);
      SamePlace(target, r, c, w, rank, x);
    }
  }

  /** In a list without duplicates an entry was inserted in one way only. */
  lemma SamePlace(target: seq<Path>, r: seq<Path>, c: nat, w: seq<Path>, rank: nat, x: Path)
    requires Distinct(target) && c <= |r| && rank <= |w|
    requires target == InsertAt(r, c, x) == InsertAt(w, rank, x)
    ensures c == rank && r == w
  {
    assert target[c] == x && target[rank] == x;
    assert r == target[..c] + target[c + 1..] && w == target[..rank] + target[rank + 1..];
  }

  lemma {:induction false} PrefixReverts(playlist: seq<Path>, moves: seq<Removal>, m: nat)
    requires Submitted(playlist, moves) && Distinct(Settled(playlist, moves)) && m <= |moves|
    ensures RevertAll(playlist, moves[..m]) == Short(playlist, moves, m) <==>
      forall i :: 0 <= i < m ==> InPlace(playlist, moves, i)
  {
    hide Settled, Submitted, Short, InPlace, Revert;
    if m == 0 {
      NothingReverted(playlist, moves);
    } else {
      assert moves[..m][..m - 1] == moves[..m - 1];
      PrefixReverts(playlist, moves, m - 1);
      RevertAllLength(playlist, moves[..m - 1]);
      OneRevert(playlist, moves, m - 1, RevertAll(playlist, moves[..m - 1]));
    }
  }

  lemma NothingReverted(playlist: seq<Path>, moves: seq<Removal>)
    requires Submitted(playlist, moves)
    ensures moves[..0] == [] && Short(playlist, moves, 0) == playlist
  {
    SlotsFacts(playlist, moves);
    assert Slots(moves)[0..] == Slots(moves);
  }

  ghost predicate AllInPlace(playlist: seq<Path>, moves: seq<Removal>) {
    forall m :: 0 <= m < |moves| ==> InPlace(playlist, moves, m)
  }

  /**
    When a move fails, putting it and the moves queued behind it back in the order they
    were submitted restores the list exactly when every one of them is in place.
   */
  lemma RevertsInPlace(playlist: seq<Path>, moves: seq<Removal>)
    requires Submitted(playlist, moves) && Distinct(Settled(playlist, moves))
    ensures RevertAll(playlist, moves) == Settled(playlist, moves) <==> AllInPlace(playlist, moves)
  {
    PrefixReverts(playlist, moves, |moves|);
    assert moves[..|moves|] == moves && Slots(moves)[|moves|..] == [];
    WithoutNothing(Settled(playlist, moves));
  }

  // ----- in terms of the recorded indices

  lemma {:induction false} OpenedCounts(xs: seq<nat>, at: nat, s: nat)
    ensures CountBelow(Opened(xs, at), if s >= at then s + 1 else s) == CountBelow(xs, s)
  {
    if |xs| > 0 {
      var m := |xs| - 1;
      assert Opened(xs, at)[..m] == Opened(xs[..m], at);
      OpenedCounts(xs[..m], at, s);
    }
  }

  /** A recorded index is the slot less the slots of earlier moves below it. */
  lemma {:induction false} SlotRank(moves: seq<Removal>, m: nat)
    requires m < |moves|
    ensures moves[m].index == Rank(Slots(moves)[..m], Slots(moves)[m])
    decreases |moves|
  {
    var at, slots := moves[0].index, Slots(moves);
    if m == 0 {
      assert slots[..0] == [];
    } else {
      var later := Slots(moves[1..]);
      SlotRank(moves[1..], m - 1);
      assert slots[..m] == [at] + Opened(later[..m - 1], at);
      CountBelowConcat([at], Opened(later[..m - 1], at), slots[m]);
      CountBelowOne(at, slots[m]);
      OpenedCounts(later[..m - 1], at, later[m - 1]);
    }
  }

  /** `InPlace` for the slots alone, the recorded index written as the rank it is. */
  ghost predicate Lands(slots: seq<nat>, size: nat, m: nat)
    requires m < |slots|
  {
    var index, wanted := Rank(slots[..m], slots[m]), Rank(slots[m + 1..], slots[m]);
    (if index <= size + m then index else size + m) == wanted
  }

  ghost predicate AllLand(slots: seq<nat>, size: nat) {
    forall m :: 0 <= m < |slots| ==> Lands(slots, size, m)
  }

  lemma {:induction false} NoneBelow(xs: seq<nat>, k: nat)
    ensures CountBelow(xs, k) == 0 <==> forall i :: 0 <= i < |xs| ==> xs[i] >= k
  {
    if |xs| > 0 {
      NoneBelow(xs[..|xs| - 1], k);
    }
  }

  /** Distinct numbers strictly between two bounds are no more than the room there. */
  lemma Crowd(xs: seq<nat>, low: nat, high: nat)
    requires Distinct(xs) && low < high && forall i :: 0 <= i < |xs| ==> low < xs[i] < high
    ensures |xs| + low + 1 <= high
  {
    AllBelow(xs, high);
    NoneBelow(xs, low + 1);
    RankGrows(xs, low + 1, high);
  }

  /** Nothing in a part of the slots lies below `x` exactly when the count there is zero. */
  lemma NoneBelowIn(slots: seq<nat>, a: nat, b: nat, x: nat)
    requires a <= b <= |slots|
    ensures CountBelow(slots[a..b], x) == 0 <==> forall m :: a <= m < b ==> slots[m] >= x
  {
    NoneBelow(slots[a..b], x);
    assert forall m :: a <= m < b ==> slots[a..b][m - a] == slots[m];
  }

  lemma AllBelowIn(slots: seq<nat>, a: nat, b: nat, x: nat)
    requires a <= b <= |slots| && forall m :: a <= m < b ==> slots[m] < x
    ensures CountBelow(slots[a..b], x) == b - a
  {
    AllBelow(slots[a..b], x);
  }

  lemma CountInParts(slots: seq<nat>, a: nat, b: nat, c: nat, x: nat)
    requires a <= b <= c <= |slots|
    ensures CountBelow(slots[a..c], x) == CountBelow(slots[a..b], x) + CountBelow(slots[b..c], x)
  {
    assert slots[a..c] == slots[a..b] + slots[b..c];
    CountBelowConcat(slots[a..b], slots[b..c], x);
  }

  lemma Ends(slots: seq<nat>, m: nat)
    requires m <= |slots|
    ensures slots[..m] == slots[0..m] && slots[m..] == slots[m..|slots|]
  {
  }

  lemma Smallest(slots: seq<nat>, a: nat, b: nat) returns (f: nat)
    requires a < b <= |slots|
    ensures a <= f < b && forall m :: a <= m < b ==> slots[f] <= slots[m]
  {
    f := a;
    for i := a + 1 to b
      invariant a <= f < i && forall m :: a <= m < i ==> slots[f] <= slots[m]
    {
      if slots[i] < slots[f] {
        f := i;
      }
    }
  }

  /** The first and the last `k` slots lie below all others, which lie behind the playlist. */
  ghost predicate Outer(slots: seq<nat>, size: nat, k: nat) {
    && 2 * k <= |slots|
    && (forall l, m :: 0 <= l < |slots| && k <= m < |slots| - k && (l < k || l >= |slots| - k) ==> slots[l] < slots[m])
    && (k > 0 ==> forall m :: k <= m < |slots| - k ==> slots[m] >= size + 2 * k)
  }

  /** Of the slots outside the window, those before it and those behind it all lie below its own. */
  lemma OuterCounts(slots: seq<nat>, size: nat, k: nat, m: nat)
    requires Outer(slots, size, k) && k <= m < |slots| - k
    ensures var x, end := slots[m], |slots| - k;
      && CountBelow(slots[..m], x) == k + CountBelow(slots[k..m], x)
      && CountBelow(slots[m + 1..], x) == CountBelow(slots[m + 1..end], x) + k
  {
    var x, end := slots[m], |slots| - k;
    AllBelowIn(slots, 0, k, x);
    AllBelowIn(slots, end, |slots|, x);
    Ends(slots, m);
    Ends(slots, m + 1);
    CountInParts(slots, 0, k, m, x);
    CountInParts(slots, m + 1, end, |slots|, x);
  }

  /** The last slot of the window is its lowest. */
  lemma LastIsLowest(slots: seq<nat>, size: nat, k: nat)
    requires Distinct(slots) && Outer(slots, size, k) && 2 * k < |slots| && AllLand(slots, size)
    ensures forall m :: k <= m < |slots| - 1 - k ==> slots[|slots| - 1 - k] < slots[m]
  {
    var l := |slots| - 1 - k;
    OuterCounts(slots, size, k, l);
    assert Lands(slots, size, l) && slots[l + 1..|slots| - k] == [];
    NoneBelowIn(slots, k, l, slots[l]);
  }

  lemma CrowdAround(slots: seq<nat>, a: nat, f: nat, b: nat, low: nat, high: nat)
    requires Distinct(slots) && a <= f < b <= |slots| && low < high
    requires forall m :: a <= m < b && m != f ==> low < slots[m] < high
    ensures b - a + low <= high
  {
    var others := slots[a..f] + slots[f + 1..b];
    assert forall i :: 0 <= i < |others| ==> others[i] == slots[if i < f - a then a + i else a + i + 1];
    Crowd(others, low, high);
  }

  /** The lowest of the others lands one place behind the entries listed when it is put back. */
  lemma LowestLands(slots: seq<nat>, size: nat, k: nat, f: nat)
    requires Outer(slots, size, k) && AllLand(slots, size) && k <= f < |slots| - 1 - k
    requires forall m :: k <= m < |slots| - 1 - k ==> slots[f] <= slots[m]
    requires slots[|slots| - 1 - k] < slots[f]
    ensures slots[f] == size + f + k + 1
  {
    hide Outer, AllLand;
    var l, x := |slots| - 1 - k, slots[f];
    OuterCounts(slots, size, k, f);
    NoneBelowIn(slots, k, f, x);
    NoneBelowIn(slots, f + 1, l, x);
    AllBelowIn(slots, l, l + 1, x);
    CountInParts(slots, f + 1, l, l + 1, x);
    LandsAt(slots, size, f);
  }

  lemma LandsAt(slots: seq<nat>, size: nat, m: nat)
    requires AllLand(slots, size) && m < |slots|
    ensures Lands(slots, size, m)
  {
  }

  /** It is the first of the window. */
  lemma FirstIsNext(slots: seq<nat>, size: nat, k: nat)
    requires Distinct(slots) && InRange(slots, size + |slots|) && Outer(slots, size, k) && AllLand(slots, size)
    requires k < |slots| - 1 - k
    ensures slots[k] == size + 2 * k + 1
    ensures forall m :: k < m < |slots| - 1 - k ==> slots[k] < slots[m]
  {
    hide Outer, AllLand;
    var l := |slots| - 1 - k;
    var f := Smallest(slots, k, l);
    LastIsLowest(slots, size, k);
    LowestLands(slots, size, k, f);
    CrowdAround(slots, k, f, l, slots[f], size + |slots|);
  }

  /** The slots of moves that all land: every second place behind the playlist from the front, the places between from the back. */
  function Interleaved(size: nat, n: nat, last: nat): (slots: seq<nat>)
    ensures |slots| == n
  {
    seq(n, m requires 0 <= m < n =>
      if m == n - 1 then last else if 2 * m < n - 1 then size + 2 * m + 1 else size + 2 * (n - 1 - m))
  }

  lemma {:induction false} LandingSlots(slots: seq<nat>, size: nat, k: nat)
    requires Distinct(slots) && InRange(slots, size + |slots|) && AllLand(slots, size)
    requires |slots| > 0 && Outer(slots, size, k)
    ensures k == 0 ==> slots[|slots| - 1] <= size
    ensures forall m :: k <= m < |slots| - k ==> slots[m] == Interleaved(size, |slots|, slots[|slots| - 1])[m]
    decreases |slots| - k
  {
    var l := |slots| - 1 - k;
    if k <= l {
      LastIsLowest(slots, size, k);
      if k < l {
        FirstIsNext(slots, size, k);
        OuterGrows(slots, size, k);
        LandingSlots(slots, size, k + 1);
      }
      assert slots[l] < size + |slots|;
    }
  }

  lemma OuterGrows(slots: seq<nat>, size: nat, k: nat)
    requires Distinct(slots) && Outer(slots, size, k) && k < |slots| - 1 - k
    requires forall m :: k <= m < |slots| - 1 - k ==> slots[|slots| - 1 - k] < slots[m]
    requires slots[k] == size + 2 * k + 1 && forall m :: k < m < |slots| - 1 - k ==> slots[k] < slots[m]
    ensures Outer(slots, size, k + 1)
  {
  }

  // ----- the converse

  /** Where the index of move `m` must point, unless it is the last. */
  function WantedIndex(size: nat, n: nat, m: nat): nat
    requires m < n
  {
    size + Min(m + 1, n - 1 - m)
  }

  lemma InterleavedOrder(size: nat, n: nat, last: nat)
    requires n > 0 && last <= size
    ensures Distinct(Interleaved(size, n, last))
  {
  }

  lemma FrontLands(size: nat, n: nat, last: nat, m: nat)
    requires last <= size && 2 * m < n - 1
    ensures var slots := Interleaved(size, n, last);
      Rank(slots[..m], slots[m]) == size + m + 1 && Rank(slots[m + 1..], slots[m]) == size + m
  {
    hide CountBelow;
    var slots, cut := Interleaved(size, n, last), n - 1 - m;
    var x := slots[m];
    Ends(slots, m);
    Ends(slots, m + 1);
    AllBelowIn(slots, 0, m, x);
    CountInParts(slots, m + 1, cut, n, x);
    NoneBelowIn(slots, m + 1, cut, x);
    AllBelowIn(slots, cut, n, x);
  }

  lemma BackLands(size: nat, n: nat, last: nat, m: nat)
    requires last <= size && m < n - 1 <= 2 * m
    ensures var slots := Interleaved(size, n, last);
      Rank(slots[..m], slots[m]) == size + n - 1 - m && Rank(slots[m + 1..], slots[m]) == size + n - 1 - m
  {
    hide CountBelow;
    var slots, k := Interleaved(size, n, last), n - 1 - m;
    var x := slots[m];
    Ends(slots, m);
    Ends(slots, m + 1);
    CountInParts(slots, 0, k, m, x);
    AllBelowIn(slots, 0, k, x);
    NoneBelowIn(slots, k, m, x);
    AllBelowIn(slots, m + 1, n, x);
  }

  lemma LastLands(size: nat, n: nat, last: nat)
    requires n > 0 && last <= size
    ensures var slots := Interleaved(size, n, last);
      Rank(slots[..n - 1], last) == last && Rank(slots[n..], last) == last
  {
    var slots := Interleaved(size, n, last);
    NoneBelow(slots[..n - 1], last);
    NoneBelow(slots[n..], last);
  }

  lemma InterleavedLands(size: nat, n: nat, last: nat, m: nat)
    requires m < n && last <= size
    ensures var slots := Interleaved(size, n, last);
      && Lands(slots, size, m)
      && Rank(slots[..m], slots[m]) == if m == n - 1 then last else WantedIndex(size, n, m)
  {
    if m == n - 1 {
      LastLands(size, n, last);
    } else if 2 * m < n - 1 {
      FrontLands(size, n, last, m);
    } else {
      BackLands(size, n, last, m);
    }
  }

  lemma FreshSlot(slots: seq<nat>, m: nat)
    requires Distinct(slots) && m < |slots|
    ensures Distinct(slots[..m]) && slots[m] !in slots[..m]
  {
  }

  ghost predicate SameRanks(a: seq<nat>, b: seq<nat>) {
    |a| == |b| && forall i :: 0 <= i < |a| ==> Rank(a[..i], a[i]) == Rank(b[..i], b[i])
  }

  lemma OneMoreFixed(a: seq<nat>, b: seq<nat>, m: nat)
    requires Distinct(a) && Distinct(b) && SameRanks(a, b) && m < |a| && a[..m] == b[..m]
    ensures |a| == |b| && a[m] == b[m]
  {
    FreshSlot(a, m);
    FreshSlot(b, m);
    assert Rank(a[..m], a[m]) == Rank(b[..m], b[m]);
    hide Distinct, Rank, SameRanks;
    RankInjective(a[..m], a[m], b[m]);
  }

  lemma OneLonger(s: seq<nat>, m: nat)
    requires m < |s|
    ensures s[..m + 1] == s[..m] + [s[m]]
  {
  }

  /** Slots are fixed by their ranks among the slots before them. */
  lemma {:induction false} RanksFixSlots(a: seq<nat>, b: seq<nat>, m: nat)
    requires |a| == |b| && Distinct(a) && Distinct(b) && SameRanks(a, b) && m <= |a|
    ensures a[..m] == b[..m]
  {
    if m > 0 {
      hide Distinct, SameRanks;
      RanksFixSlots(a, b, m - 1);
      OneMoreFixed(a, b, m - 1);
      OneLonger(a, m - 1);
      OneLonger(b, m - 1);
    }
  }

  // ----- when a failure restores the list

  /** The indices of all moves but the last, counted from the end of the playlist, go 1, 2, 3 up to the middle and back to 1. */
  ghost predicate InOrder(playlist: seq<Path>, moves: seq<Removal>) {
    forall m :: 0 <= m < |moves| - 1 ==> moves[m].index == WantedIndex(|playlist|, |moves|, m)
  }

  lemma SlotsInRange(playlist: seq<Path>, moves: seq<Removal>)
    requires Submitted(playlist, moves)
    ensures Distinct(Slots(moves)) && InRange(Slots(moves), |playlist| + |moves|)
  {
    SlotsFacts(playlist, moves);
    SettledLength(playlist, moves);
    forall i | 0 <= i < |moves|
      ensures Slots(moves)[i] < |playlist| + |moves|
    {
      SlotsHold(playlist, moves, i);
    }
  }

  lemma InPlaceIsLanding(playlist: seq<Path>, moves: seq<Removal>, m: nat)
    requires m < |moves|
    ensures InPlace(playlist, moves, m) <==> Lands(Slots(moves), |playlist|, m)
  {
    SlotRank(moves, m);
  }

  lemma InPlaceIsInOrder(playlist: seq<Path>, moves: seq<Removal>)
    requires Submitted(playlist, moves)
    ensures AllInPlace(playlist, moves) <==> InOrder(playlist, moves)
  {
    hide InPlace, Lands, Slots, Rank, Interleaved, Submitted;
    var slots, size, n := Slots(moves), |playlist|, |moves|;
    SlotsInRange(playlist, moves);
    forall m | 0 <= m < n
      ensures InPlace(playlist, moves, m) <==> Lands(slots, size, m)
      ensures moves[m].index == Rank(slots[..m], slots[m])
    {
      InPlaceIsLanding(playlist, moves, m);
      SlotRank(moves, m);
    }
    if n > 0 {
      LastIndex(playlist, moves);
      assert AllInPlace(playlist, moves) <==> AllLand(slots, size);
      if AllLand(slots, size) {
        LandingIndices(slots, size);
      }
      if InOrder(playlist, moves) {
        OrderLands(slots, size, moves[n - 1].index);
      }
    }
  }

  lemma LastIndex(playlist: seq<Path>, moves: seq<Removal>)
    requires Submitted(playlist, moves) && |moves| > 0
    ensures moves[|moves| - 1].index <= |playlist|
  {
  }

  lemma LandingIndices(slots: seq<nat>, size: nat)
    requires Distinct(slots) && InRange(slots, size + |slots|) && AllLand(slots, size) && |slots| > 0
    ensures forall m :: 0 <= m < |slots| - 1 ==> Rank(slots[..m], slots[m]) == WantedIndex(size, |slots|, m)
  {
    hide Lands, Rank, Interleaved;
    LandingSlots(slots, size, 0);
    assert slots == Interleaved(size, |slots|, slots[|slots| - 1]);
    IndicesWanted(slots, size);
  }

  lemma IndicesWanted(slots: seq<nat>, size: nat)
    requires |slots| > 0 && slots[|slots| - 1] <= size && slots == Interleaved(size, |slots|, slots[|slots| - 1])
    ensures forall m :: 0 <= m < |slots| - 1 ==> Rank(slots[..m], slots[m]) == WantedIndex(size, |slots|, m)
  {
    forall m | 0 <= m < |slots| - 1
      ensures Rank(slots[..m], slots[m]) == WantedIndex(size, |slots|, m)
    {
      InterleavedLands(size, |slots|, slots[|slots| - 1], m);
    }
  }

  lemma OrderLands(slots: seq<nat>, size: nat, last: nat)
    requires Distinct(slots) && |slots| > 0 && last <= size
    requires forall m :: 0 <= m < |slots| ==>
      Rank(slots[..m], slots[m]) == if m == |slots| - 1 then last else WantedIndex(size, |slots|, m)
    ensures AllLand(slots, size)
  {
    var wanted := Interleaved(size, |slots|, last);
    InterleavedOrder(size, |slots|, last);
    forall m | 0 <= m < |slots|
      ensures Lands(wanted, size, m) && Rank(wanted[..m], wanted[m]) == Rank(slots[..m], slots[m])
    {
      InterleavedLands(size, |slots|, last, m);
    }
    assert SameRanks(slots, wanted);
    hide Lands, Rank, Interleaved, SameRanks;
    RanksFixSlots(slots, wanted, |slots|);
    assert slots == slots[..|slots|] && wanted == wanted[..|slots|];
  }

  /**
    When a move fails, putting it and the moves queued behind it back in the order they
    were submitted restores the list exactly when the recorded indices of all but the last
    are, counted from the end of what is left, 1, 2, 3 and so on up to the middle and back
    down to 1.
   */
  lemma RevertsInOrder(playlist: seq<Path>, moves: seq<Removal>)
    requires Submitted(playlist, moves) && Distinct(Settled(playlist, moves))
    ensures RevertAll(playlist, moves) == Settled(playlist, moves) <==>
      forall m :: 0 <= m < |moves| - 1 ==> moves[m].index == |playlist| + Min(m + 1, |moves| - 1 - m)
  {
    hide RevertAll, Settled, Distinct, AllInPlace;
    RevertsInPlace(playlist, moves);
    InPlaceIsInOrder(playlist, moves);
  }

  /** A move that fails with none queued behind it always goes back where it was. */
  lemma LoneMoveReverts(playlist: seq<Path>, move: Removal)
    requires Submitted(playlist, [move]) && move.path !in playlist
    ensures RevertAll(playlist, [move]) == Settled(playlist, [move])
  {
    assert [move][..0] == [] && [move][1..] == [];
    assert RevertAll(playlist, []) == playlist;
  }

  /** Of two failed moves, both go back where they were exactly when the first took the last entry of its list. */
  lemma TwoMovesRevert(playlist: seq<Path>, first: Removal, second: Removal)
    requires Submitted(playlist, [first, second]) && Distinct(Settled(playlist, [first, second]))
    ensures RevertAll(playlist, [first, second]) == Settled(playlist, [first, second]) <==>
      first.index == |playlist| + 1
  {
    hide RevertAll, Settled, Distinct;
    var moves := [first, second];
    RevertsInOrder(playlist, moves);
    assert (forall m :: 0 <= m < |moves| - 1 ==> moves[m].index == |playlist| + Min(m + 1, |moves| - 1 - m))
           <==> moves[0].index == |playlist| + 1;
  }

  /** Two moves of the first entry each come back in the wrong order. */
  lemma FirstEntriesSwap()
    ensures var moves := [Removal("/a.jpg", 0), Removal("/b.jpg", 0)];
      && Settled(["/c.jpg"], moves) == ["/a.jpg", "/b.jpg", "/c.jpg"]
      && RevertAll(["/c.jpg"], moves) == ["/b.jpg", "/a.jpg", "/c.jpg"]
  {
    var a, b := Removal("/a.jpg", 0), Removal("/b.jpg", 0);
    assert [a, b][1..] == [b] && [b][1..] == [] && [a, b][..1] == [a] && [a][..0] == [];
    assert Settled(["/c.jpg"], [b]) == ["/b.jpg", "/c.jpg"];
    assert "/a.jpg"[1] != "/c.jpg"[1] && "/b.jpg"[1] != "/c.jpg"[1] && "/a.jpg"[1] != "/b.jpg"[1];
    assert RevertAll(["/c.jpg"], []) == ["/c.jpg"];
    assert RevertAll(["/c.jpg"], [a]) == ["/a.jpg", "/c.jpg"];
  }

  // ----- what a failure never loses

  function MovePaths(moves: seq<Removal>): seq<Path> {
    seq(|moves|, m requires 0 <= m < |moves| => moves[m].path)
  }

  lemma {:induction false} SettledEntries(playlist: seq<Path>, moves: seq<Removal>)
    ensures multiset(Settled(playlist, moves)) == multiset(playlist) + multiset(MovePaths(moves))
  {
    if |moves| > 0 {
      var later := Settled(playlist, moves[1..]);
      SettledEntries(playlist, moves[1..]);
      InsertAtMultiset(later, Min(moves[0].index, |later|), moves[0].path);
      assert MovePaths(moves) == [moves[0].path] + MovePaths(moves[1..]);
    }
  }

  lemma {:induction false} AtMostOnce<T>(s: seq<T>, x: T)
    requires Distinct(s)
    ensures multiset(s)[x] <= 1
  {
    DistinctOnce(s, x);
  }

  /** Whatever order failed moves come back in, every entry comes back once. */
  lemma {:induction false} RevertedEntries(playlist: seq<Path>, moves: seq<Removal>)
    requires forall x :: multiset(playlist)[x] + multiset(MovePaths(moves))[x] <= 1
    ensures multiset(RevertAll(playlist, moves)) == multiset(playlist) + multiset(MovePaths(moves))
  {
    if |moves| > 0 {
      var last := |moves| - 1;
      assert MovePaths(moves) == MovePaths(moves[..last]) + [moves[last].path];
      RevertedEntries(playlist, moves[..last]);
      var r := RevertAll(playlist, moves[..last]);
      assert moves[last].path !in multiset(r);
      InsertAtMultiset(r, Min(moves[last].index, |r|), moves[last].path);
    }
  }

  lemma RevertLosesNothing(playlist: seq<Path>, moves: seq<Removal>)
    requires Distinct(Settled(playlist, moves))
    ensures multiset(RevertAll(playlist, moves)) == multiset(Settled(playlist, moves))
  {
    SettledEntries(playlist, moves);
    forall x
      ensures multiset(playlist)[x] + multiset(MovePaths(moves))[x] <= 1
    {
      AtMostOnce(Settled(playlist, moves), x);
    }
    RevertedEntries(playlist, moves);
  }

  /** The base list with other live entries in the slots that are not pending. */
  ghost function Refilled(base: seq<Path>, pending: seq<nat>, live: seq<Path>): seq<Path>
    requires |live| == |Without(base, pending)|
  {
    if |base| == 0 then []
    else
      var m := |base| - 1;
      if m in pending then Refilled(base[..m], pending, live) + [base[m]]
      else Refilled(base[..m], pending, live[..|live| - 1]) + [live[|live| - 1]]
  }

  lemma WithoutLast(s: seq<Path>, x: Path, xs: seq<nat>)
    ensures Without(s + [x], xs) == if |s| in xs then Without(s, xs) else Without(s, xs) + [x]
  {
    assert (s + [x])[..|s|] == s;
  }

  lemma RefilledLast(base: seq<Path>, x: Path, pending: seq<nat>, live: seq<Path>)
    requires |live| == |Without(base + [x], pending)|
    ensures var fewer, y := Fewer(|base|, pending, live), LastEntry(|base|, x, pending, live);
      && |fewer| == |Without(base, pending)|
      && Refilled(base + [x], pending, live) == Refilled(base, pending, fewer) + [y]
      && live == if |base| in pending then fewer else fewer + [y]
  {
    assert (base + [x])[..|base|] == base;
    hide Refilled;
    RefilledUnfolds(base + [x], pending, live);
  }

  ghost function Fewer(m: nat, pending: seq<nat>, live: seq<Path>): seq<Path> {
    if m in pending || |live| == 0 then live else live[..|live| - 1]
  }

  ghost function LastEntry(m: nat, x: Path, pending: seq<nat>, live: seq<Path>): Path {
    if m in pending || |live| == 0 then x else live[|live| - 1]
  }

  lemma RefilledUnfolds(base: seq<Path>, pending: seq<nat>, live: seq<Path>)
    requires |base| > 0 && |live| == |Without(base, pending)|
    ensures var m := |base| - 1;
      && |Fewer(m, pending, live)| == |Without(base[..m], pending)|
      && Refilled(base, pending, live) ==
         Refilled(base[..m], pending, Fewer(m, pending, live)) + [LastEntry(m, base[m], pending, live)]
  {
  }

  lemma {:induction false} RefilledLength(base: seq<Path>, pending: seq<nat>, live: seq<Path>)
    requires |live| == |Without(base, pending)|
    ensures |Refilled(base, pending, live)| == |base|
  {
    if |base| > 0 {
      var m := |base| - 1;
      hide Without, Refilled;
      RefilledUnfolds(base, pending, live);
      RefilledLength(base[..m], pending, Fewer(m, pending, live));
    }
  }

  lemma {:induction false} RefilledWithout(base: seq<Path>, pending: seq<nat>, live: seq<Path>)
    requires |live| == |Without(base, pending)|
    ensures Without(Refilled(base, pending, live), pending) == live
  {
    if |base| > 0 {
      hide Without, Refilled;
      var m := |base| - 1;
      var shorter, fewer := base[..m], Fewer(m, pending, live);
      assert base == shorter + [base[m]];
      RefilledLast(shorter, base[m], pending, live);
      RefilledLength(shorter, pending, fewer);
      RefilledWithout(shorter, pending, fewer);
      WithoutLast(Refilled(shorter, pending, fewer), LastEntry(m, base[m], pending, live), pending);
    }
  }

  lemma {:induction false} RefilledAt(base: seq<Path>, pending: seq<nat>, live: seq<Path>, k: nat)
    requires |live| == |Without(base, pending)| && k in pending && k < |base|
    ensures |Refilled(base, pending, live)| == |base| && Refilled(base, pending, live)[k] == base[k]
  {
    var m := |base| - 1;
    hide Without, Refilled;
    RefilledUnfolds(base, pending, live);
    RefilledLength(base[..m], pending, Fewer(m, pending, live));
    if k < m {
      RefilledAt(base[..m], pending, Fewer(m, pending, live), k);
    }
  }

  /** A playlist of the same entries in another order is that of a base list of the same entries. */
  lemma ReorderedInv(base: seq<Path>, u: Undo, live: seq<Path>)
    requires Inv(base, u) && multiset(live) == multiset(u.playlist)
    ensures |live| == |Without(base, Indices(u.pending))|
    ensures var reordered := Refilled(base, Indices(u.pending), live);
      Inv(reordered, Undo(live, u.pending)) && multiset(reordered) == multiset(base)
  {
    var pending := Indices(u.pending);
    assert |live| == |multiset(live)| == |multiset(u.playlist)| == |u.playlist|;
    RefilledLength(base, pending, live);
    RefilledWithout(base, pending, live);
    var r := Refilled(base, pending, live);
    forall x | x in u.pending
      ensures x.playlistIndex < |r| && r[x.playlistIndex] == x.receipt.originalPath
    {
      var i :| 0 <= i < |u.pending| && u.pending[i] == x;
      assert pending[i] in pending;
      RefilledAt(base, pending, live, pending[i]);
    }
    PickedPaths(base, u.pending);
    PickedPaths(r, u.pending);
    WithoutConserves(base, pending);
    WithoutConserves(r, pending);
  }

  /** After a failure the playlist is that of a base list of the same entries, the same base list if all went back in place. */
  lemma FailureKeepsInv(base: seq<Path>, playlist: seq<Path>, moves: seq<Removal>, pending: seq<Record>)
    returns (reordered: seq<Path>)
    requires Submitted(playlist, moves) && Distinct(Settled(playlist, moves))
    requires Inv(base, Undo(Settled(playlist, moves), pending))
    ensures Inv(reordered, Undo(RevertAll(playlist, moves), pending))
    ensures multiset(reordered) == multiset(base)
    ensures multiset(RevertAll(playlist, moves)) == multiset(Settled(playlist, moves))
    ensures InOrder(playlist, moves) <==> RevertAll(playlist, moves) == Settled(playlist, moves)
    ensures InOrder(playlist, moves) ==> reordered == base
  {
    hide Submitted, Settled, Distinct, Inv, RevertAll;
    RevertsInOrder(playlist, moves);
    RevertLosesNothing(playlist, moves);
    if RevertAll(playlist, moves) == Settled(playlist, moves) {
      reordered := base;
    } else {
      ReorderedInv(base, Undo(Settled(playlist, moves), pending), RevertAll(playlist, moves));
      reordered := Refilled(base, Indices(pending), RevertAll(playlist, moves));
    }
  }
}
