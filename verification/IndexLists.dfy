/**
  Counting below an index and taking slots out of a list.

  A trashed record names a slot of a list that no longer exists. Everything the
  undo code does with such a slot is counting: how many of these indices lie
  below this one. `Without(s, xs)` is the list `s` with the slots `xs` taken out,
  and `Rank` is the position a slot of `s` has there.
 */
module IndexLists {
  import opened Arith

  ghost predicate Distinct<T>(xs: seq<T>) {
    forall i, j :: 0 <= i < j < |xs| ==> xs[i] != xs[j]
  }

  ghost predicate InRange(at: seq<nat>, n: nat) {
    forall i :: 0 <= i < |at| ==> at[i] < n
  }

  /** How many entries of `xs` are below `k`. */
  function CountBelow(xs: seq<nat>, k: nat): nat {
    if |xs| == 0 then 0
    else CountBelow(xs[..|xs| - 1], k) + (if xs[|xs| - 1] < k then 1 else 0)
  }

  /** `s` with every slot named by `xs` taken out. */
  function Without<T>(s: seq<T>, xs: seq<nat>): seq<T> {
    if |s| == 0 then []
    else
      var before := Without(s[..|s| - 1], xs);
      if |s| - 1 in xs then before else before + [s[|s| - 1]]
  }

  /** The position slot `k` has once the slots `xs` are gone. */
  function Rank(xs: seq<nat>, k: nat): int {
    k - CountBelow(xs, k)
  }

  /** Every index of `ks` moved to its position once the slots `xs` are gone. */
  function Ranks(xs: seq<nat>, ks: seq<nat>): seq<int> {
    seq(|ks|, i requires 0 <= i < |ks| => Rank(xs, ks[i]))
  }

  function Positions(n: nat): seq<nat> {
    seq(n, (i: nat) => i)
  }

  /** The slots of a list of length `n` that `xs` leaves in place, ascending. */
  function Kept(n: nat, xs: seq<nat>): seq<nat> {
    Without(Positions(n), xs)
  }

  /** `a` is `b` read at the strictly ascending positions `at`. */
  ghost predicate Embeds<T(!new)>(a: seq<T>, b: seq<T>, at: seq<nat>) {
    && |at| == |a|
    && (forall i :: 0 <= i < |at| ==> at[i] < |b| && a[i] == b[at[i]])
    && (forall i, j :: 0 <= i < j < |at| ==> at[i] < at[j])
  }

  // ----- counting

  lemma {:induction false} CountBelowNext(xs: seq<nat>, k: nat)
    ensures CountBelow(xs, k + 1) == CountBelow(xs, k) + multiset(xs)[k]
  {
    if |xs| > 0 {
      var m := |xs| - 1;
      assert xs == xs[..m] + [xs[m]];
      CountBelowNext(xs[..m], k);
    }
  }

  lemma {:induction false} DistinctOnce<T>(xs: seq<T>, x: T)
    requires Distinct(xs)
    ensures multiset(xs)[x] == if x in xs then 1 else 0
  {
    if |xs| > 0 {
      var m := |xs| - 1;
      assert xs == xs[..m] + [xs[m]];
      DistinctOnce(xs[..m], x);
    }
  }

  lemma CountBelowStep(xs: seq<nat>, k: nat)
    requires Distinct(xs)
    ensures CountBelow(xs, k + 1) == CountBelow(xs, k) + (if k in xs then 1 else 0)
  {
    CountBelowNext(xs, k);
    DistinctOnce(xs, k);
  }

  lemma {:induction false} CountBelowZero(xs: seq<nat>)
    ensures CountBelow(xs, 0) == 0
  {
    if |xs| > 0 {
      CountBelowZero(xs[..|xs| - 1]);
    }
  }

  /** Distinct slots never outnumber the indices below `k`, so no subtraction saturates. */
  lemma {:induction false} CountBelowBound(xs: seq<nat>, k: nat)
    requires Distinct(xs)
    ensures CountBelow(xs, k) <= k
  {
    if k == 0 {
      CountBelowZero(xs);
    } else {
      CountBelowBound(xs, k - 1);
      CountBelowStep(xs, k - 1);
    }
  }

  lemma {:induction false} CountBelowConcat(xs: seq<nat>, ys: seq<nat>, k: nat)
    ensures CountBelow(xs + ys, k) == CountBelow(xs, k) + CountBelow(ys, k)
  {
    if |ys| == 0 {
      assert xs + ys == xs;
    } else {
      var m := |ys| - 1;
      assert (xs + ys)[..|xs + ys| - 1] == xs + ys[..m];
      CountBelowConcat(xs, ys[..m], k);
    }
  }

  lemma {:induction false} CountBelowMultiset(xs: seq<nat>, ys: seq<nat>, k: nat)
    requires multiset(xs) == multiset(ys)
    ensures CountBelow(xs, k) == CountBelow(ys, k)
  {
    if k == 0 {
      CountBelowZero(xs);
      CountBelowZero(ys);
    } else {
      CountBelowMultiset(xs, ys, k - 1);
      CountBelowNext(xs, k - 1);
      CountBelowNext(ys, k - 1);
    }
  }

  /** Below two indices the counts differ by at most the gap, and a kept slot in between counts. */
  lemma {:induction false} RankGrows(xs: seq<nat>, a: nat, b: nat)
    requires Distinct(xs) && a <= b
    ensures Rank(xs, a) <= Rank(xs, b)
    ensures a < b && a !in xs ==> Rank(xs, a) < Rank(xs, b)
  {
    if a < b {
      CountBelowStep(xs, b - 1);
      if a < b - 1 {
        RankGrows(xs, a, b - 1);
      }
    }
  }

  // ----- lists that share their entries

  /** Two lists share out a third; one more entry goes to either of them. */
  lemma ShareOneMore<T>(a: seq<T>, b: seq<T>, all: seq<T>, x: T)
    requires multiset(all) == multiset(a) + multiset(b)
    ensures multiset(all + [x]) == multiset(a + [x]) + multiset(b)
    ensures multiset(all + [x]) == multiset(a) + multiset(b + [x])
  {
  }

  lemma SameMembers<T>(xs: seq<T>, ys: seq<T>)
    requires multiset(xs) == multiset(ys)
    ensures forall x :: x in xs <==> x in ys
  {
    forall x ensures x in xs <==> x in ys {
      assert x in multiset(xs) <==> x in multiset(ys);
    }
  }

  lemma DistinctByMultiset<T>(xs: seq<T>, ys: seq<T>)
    requires multiset(ys) <= multiset(xs) && Distinct(xs)
    ensures Distinct(ys)
    ensures forall y :: y in ys ==> y in xs
  {
    forall i, j | 0 <= i < j < |ys|
      ensures ys[i] != ys[j]
    {
      if ys[i] == ys[j] {
        assert ys == ys[..i] + [ys[i]] + ys[i + 1..j] + [ys[j]] + ys[j + 1..];
        assert multiset(ys)[ys[i]] >= 2;
        DistinctOnce(xs, ys[i]);
      }
    }
    forall y | y in ys
      ensures y in xs
    {
      assert y in multiset(ys);
    }
  }

  lemma RemoveOne<T>(b: seq<T>, j: nat)
    requires j < |b|
    ensures multiset(b[..j] + b[j + 1..]) == multiset(b) - multiset{b[j]}
  {
    assert b == b[..j] + [b[j]] + b[j + 1..];
  }

  // ----- reading a list at given positions

  function Picked<T>(s: seq<T>, at: seq<nat>): seq<T>
    requires InRange(at, |s|)
  {
    seq(|at|, i requires 0 <= i < |at| => s[at[i]])
  }

  lemma PickOne<T>(s: seq<T>, b: seq<nat>, j: nat)
    requires j < |b| && InRange(b, |s|)
    ensures var c := b[..j] + b[j + 1..];
      InRange(c, |s|) && multiset(Picked(s, b)) == multiset(Picked(s, c)) + multiset{s[b[j]]}
  {
    var c := b[..j] + b[j + 1..];
    assert Picked(s, b) == Picked(s, b[..j]) + [s[b[j]]] + Picked(s, b[j + 1..]);
    assert Picked(s, c) == Picked(s, b[..j]) + Picked(s, b[j + 1..]);
  }

  /** The same positions in any order read the same entries. */
  lemma {:induction false} PickedSame<T>(s: seq<T>, a: seq<nat>, b: seq<nat>)
    requires multiset(a) == multiset(b) && InRange(a, |s|) && InRange(b, |s|)
    ensures multiset(Picked(s, a)) == multiset(Picked(s, b))
  {
    if |a| == 0 {
      assert |multiset(b)| == 0;
    } else {
      var m := |a| - 1;
      assert a[m] in multiset(b);
      var j :| 0 <= j < |b| && b[j] == a[m];
      RemoveOne(b, j);
      RemoveOne(a, m);
      assert a[..m] + a[m + 1..] == a[..m];
      PickOne(s, a, m);
      PickOne(s, b, j);
      PickedSame(s, a[..m], b[..j] + b[j + 1..]);
    }
  }

  lemma PickedAll<T>(s: seq<T>)
    ensures Picked(s, Positions(|s|)) == s
  {
  }

  // ----- stable order

  /** Lists of the same entries match up: every entry of one has a position of its own in the other. */
  lemma {:induction false} MatchUp<T>(xs: seq<T>, ys: seq<T>, left: seq<nat>) returns (at: seq<nat>)
    requires InRange(left, |ys|) && multiset(xs) == multiset(Picked(ys, left))
    ensures |at| == |xs| && multiset(at) == multiset(left)
    ensures forall i :: 0 <= i < |xs| ==> at[i] < |ys| && xs[i] == ys[at[i]]
  {
    if |xs| == 0 {
      assert |left| == |Picked(ys, left)| == |multiset(xs)|;
      at := [];
    } else {
      var m := |xs| - 1;
      var j := FindPicked(xs, ys, left);
      var fewer := left[..j] + left[j + 1..];
      PickOne(ys, left, j);
      RemoveOne(left, j);
      SnocMultiset(xs);
      CancelOne(multiset(xs[..m]), multiset(Picked(ys, fewer)), xs[m]);
      var before := MatchUp(xs[..m], ys, fewer);
      at := before + [left[j]];
    }
  }

  lemma FindPicked<T>(xs: seq<T>, ys: seq<T>, left: seq<nat>) returns (j: nat)
    requires |xs| > 0 && InRange(left, |ys|) && multiset(xs) == multiset(Picked(ys, left))
    ensures j < |left| && ys[left[j]] == xs[|xs| - 1]
  {
    assert xs[|xs| - 1] in multiset(Picked(ys, left));
    j :| 0 <= j < |left| && Picked(ys, left)[j] == xs[|xs| - 1];
  }

  lemma SnocMultiset<T>(xs: seq<T>)
    requires |xs| > 0
    ensures multiset(xs) == multiset(xs[..|xs| - 1]) + multiset{xs[|xs| - 1]}
  {
    assert xs == xs[..|xs| - 1] + [xs[|xs| - 1]];
  }

  lemma CancelOne<T>(a: multiset<T>, b: multiset<T>, x: T)
    requires a + multiset{x} == b + multiset{x}
    ensures a == b
  {
    assert a == (a + multiset{x}) - multiset{x} && b == (b + multiset{x}) - multiset{x};
  }

  function Mapped<T, A>(xs: seq<T>, f: T -> A): seq<A> {
    seq(|xs|, i requires 0 <= i < |xs| => f(xs[i]))
  }

  /** What is equal under `f` is equal under `g`, so lists alike under `f` are alike under `g`. */
  lemma MappedSame<T(!new), A, B>(xs: seq<T>, ys: seq<T>, f: T -> A, g: T -> B)
    requires forall x, y :: f(x) == f(y) ==> g(x) == g(y)
    requires multiset(Mapped(xs, f)) == multiset(Mapped(ys, f))
    ensures multiset(Mapped(xs, g)) == multiset(Mapped(ys, g))
  {
    var all := Positions(|ys|);
    PickedAll(Mapped(ys, f));
    PickedAll(Mapped(ys, g));
    var at := MatchUp(Mapped(xs, f), Mapped(ys, f), all);
    assert Mapped(xs, g) == Picked(Mapped(ys, g), at) by {
      forall i | 0 <= i < |xs|
        ensures g(xs[i]) == g(ys[at[i]])
      {
        assert Mapped(xs, f)[i] == Mapped(ys, f)[at[i]];
      }
    }
    PickedSame(Mapped(ys, g), at, all);
  }

  ghost predicate AscendingAt(keys: seq<nat>, at: seq<nat>) {
    && InRange(at, |keys|)
    && forall i, j :: 0 <= i < j < |at| ==> keys[at[i]] <= keys[at[j]]
  }

  /** Insert position `p` behind the positions whose keys do not exceed its own. */
  function InsertPosition(keys: seq<nat>, at: seq<nat>, p: nat): (r: seq<nat>)
    requires p < |keys| && InRange(at, |keys|)
    ensures InRange(r, |keys|)
  {
    if |at| == 0 then [p]
    else if keys[at[|at| - 1]] <= keys[p] then at + [p]
    else InsertPosition(keys, at[..|at| - 1], p) + [at[|at| - 1]]
  }

  /** The first `n` positions in stable order of their keys. */
  function Order(keys: seq<nat>, n: nat): (r: seq<nat>)
    requires n <= |keys|
    ensures InRange(r, |keys|)
  {
    if n == 0 then [] else InsertPosition(keys, Order(keys, n - 1), n - 1)
  }

  lemma {:induction false} InsertPositionKeeps(keys: seq<nat>, at: seq<nat>, p: nat)
    requires p < |keys| && InRange(at, |keys|)
    ensures multiset(InsertPosition(keys, at, p)) == multiset(at) + multiset{p}
  {
    if |at| > 0 {
      var m := |at| - 1;
      assert at == at[..m] + [at[m]];
      InsertPositionKeeps(keys, at[..m], p);
    }
  }

  lemma NoneAbove(keys: seq<nat>, q: seq<nat>, before: seq<nat>, p: nat, bound: nat)
    requires p < |keys| && InRange(q, |keys|) && multiset(q) == multiset(before) + multiset{p}
    requires InRange(before, |keys|) && forall i :: 0 <= i < |before| ==> keys[before[i]] <= bound
    requires keys[p] <= bound
    ensures forall i :: 0 <= i < |q| ==> keys[q[i]] <= bound
  {
    forall i | 0 <= i < |q|
      ensures keys[q[i]] <= bound
    {
      assert q[i] in multiset(q);
      if q[i] != p {
        assert q[i] in before;
      }
    }
  }

  lemma {:induction false} InsertPositionSorts(keys: seq<nat>, at: seq<nat>, p: nat)
    requires p < |keys| && AscendingAt(keys, at)
    ensures AscendingAt(keys, InsertPosition(keys, at, p))
  {
    var m := |at| - 1;
    if |at| > 0 && keys[at[m]] > keys[p] {
      InsertPositionSorts(keys, at[..m], p);
      InsertPositionKeeps(keys, at[..m], p);
      NoneAbove(keys, InsertPosition(keys, at[..m], p), at[..m], p, keys[at[m]]);
    }
  }

  lemma PositionsSnoc(n: nat)
    ensures Positions(n + 1) == Positions(n) + [n]
    ensures multiset(Positions(n + 1)) == multiset(Positions(n)) + multiset{n}
  {
  }

  lemma {:induction false} OrderSorts(keys: seq<nat>, n: nat)
    requires n <= |keys|
    ensures AscendingAt(keys, Order(keys, n))
    ensures multiset(Order(keys, n)) == multiset(Positions(n))
  {
    if n > 0 {
      hide AscendingAt, InsertPosition, Positions;
      OrderSorts(keys, n - 1);
      InsertPositionSorts(keys, Order(keys, n - 1), n - 1);
      InsertPositionKeeps(keys, Order(keys, n - 1), n - 1);
      PositionsSnoc(n - 1);
    }
  }

  // ----- taking slots out

  lemma {:induction false} WithoutSameSlots<T>(s: seq<T>, xs: seq<nat>, ys: seq<nat>)
    requires forall x :: x in xs <==> x in ys
    ensures Without(s, xs) == Without(s, ys)
  {
    if |s| > 0 {
      WithoutSameSlots(s[..|s| - 1], xs, ys);
    }
  }

  lemma {:induction false} WithoutNothing<T>(s: seq<T>)
    ensures Without(s, []) == s
  {
    if |s| > 0 {
      WithoutNothing(s[..|s| - 1]);
    }
  }

  lemma {:induction false} WithoutLength<T>(s: seq<T>, xs: seq<nat>)
    requires Distinct(xs)
    ensures |Without(s, xs)| == Rank(xs, |s|)
  {
    if |s| == 0 {
      CountBelowZero(xs);
    } else {
      WithoutLength(s[..|s| - 1], xs);
      CountBelowStep(xs, |s| - 1);
    }
  }

  lemma {:induction false} WithoutPrefix<T>(s: seq<T>, xs: seq<nat>, k: nat)
    requires k <= |s|
    ensures Without(s[..k], xs) <= Without(s, xs)
  {
    if k == |s| {
      assert s[..k] == s;
    } else {
      WithoutPrefix(s[..|s| - 1], xs, k);
      assert s[..|s| - 1][..k] == s[..k];
    }
  }

  /** A kept slot is found at its rank. */
  lemma WithoutAt<T>(s: seq<T>, xs: seq<nat>, k: nat)
    requires Distinct(xs) && k < |s| && k !in xs
    ensures 0 <= Rank(xs, k) < |Without(s, xs)|
    ensures Without(s, xs)[Rank(xs, k)] == s[k]
  {
    WithoutLength(s[..k], xs);
    WithoutPrefix(s, xs, k + 1);
    assert s[..k + 1][..k] == s[..k];
    WithoutLength(s[..k + 1], xs);
  }

  /** Among kept slots rank is injective. */
  lemma RankInjective(xs: seq<nat>, a: nat, b: nat)
    requires Distinct(xs) && a !in xs && b !in xs && Rank(xs, a) == Rank(xs, b)
    ensures a == b
  {
    if a < b {
      RankGrows(xs, a, b);
    } else if b < a {
      RankGrows(xs, b, a);
    }
  }

  lemma RanksDistinct(xs: seq<nat>, ks: seq<nat>)
    requires Distinct(xs) && Distinct(ks) && (forall k :: k in ks ==> k !in xs)
    ensures Distinct(Ranks(xs, ks))
    ensures forall i :: 0 <= i < |ks| ==> Ranks(xs, ks)[i] >= 0
  {
    forall i, j | 0 <= i < j < |ks|
      ensures Ranks(xs, ks)[i] != Ranks(xs, ks)[j]
    {
      assert ks[i] in ks && ks[j] in ks;
      if Rank(xs, ks[i]) == Rank(xs, ks[j]) {
        RankInjective(xs, ks[i], ks[j]);
      }
    }
    forall i | 0 <= i < |ks|
      ensures Ranks(xs, ks)[i] >= 0
    {
      CountBelowBound(xs, ks[i]);
    }
  }

  /** Rank tells a kept slot apart from every other slot of `ks`. */
  lemma RankAmong(xs: seq<nat>, ks: seq<nat>, m: nat)
    requires Distinct(xs) && m !in xs && (forall k :: k in ks ==> k !in xs)
    ensures Rank(xs, m) in Ranks(xs, ks) <==> m in ks
  {
    if m in ks {
      var i :| 0 <= i < |ks| && ks[i] == m;
      assert Ranks(xs, ks)[i] == Rank(xs, m);
    }
    if Rank(xs, m) in Ranks(xs, ks) {
      var i :| 0 <= i < |ks| && Ranks(xs, ks)[i] == Rank(xs, m);
      assert ks[i] in ks;
      RankInjective(xs, ks[i], m);
    }
  }

  /**
    Taking slots out in two rounds is taking them out at once, provided the second
    round is renumbered by rank.
   */
  lemma {:induction false} WithoutTwice<T>(s: seq<T>, first: seq<nat>, second: seq<nat>, renumbered: seq<nat>)
    requires Distinct(first) && (forall k :: k in second ==> k !in first)
    requires renumbered == Ranks(first, second)
    ensures Without(Without(s, first), renumbered) == Without(s, first + second)
  {
    if |s| > 0 {
      var m := |s| - 1;
      var shorter := Without(s[..m], first);
      WithoutTwice(s[..m], first, second, renumbered);
      if m in first {
        assert Without(s, first) == shorter;
      } else {
        WithoutLength(s[..m], first);
        RankAmong(first, second, m);
        var longer := Without(s, first);
        assert longer == shorter + [s[m]];
        assert longer[..|longer| - 1] == shorter;
      }
    }
  }

  /** Putting a slot's entry back at its rank undoes taking it out. */
  lemma {:induction false} PutBack<T>(s: seq<T>, missing: seq<nat>, others: seq<nat>, k: nat)
    requires Distinct(missing) && k < |s| && k in missing
    requires forall x :: x in others <==> x in missing && x != k
    requires Distinct(others)
    ensures 0 <= Rank(others, k) <= |Without(s, missing)|
    ensures var at := Rank(others, k); var w := Without(s, missing);
      Without(s, others) == w[..at] + [s[k]] + w[at..]
  {
    var m := |s| - 1;
    var at := Rank(others, k);
    if k == m {
      AgreeBelow(s[..m], missing, others, k);
      WithoutLength(s[..m], others);
    } else {
      PutBack(s[..m], missing, others, k);
      var w := Without(s[..m], missing);
      if m !in missing {
        assert w[..at] + [s[k]] + w[at..] + [s[m]] == (w + [s[m]])[..at] + [s[k]] + (w + [s[m]])[at..];
      }
    }
  }

  lemma {:induction false} AgreeBelow<T>(s: seq<T>, xs: seq<nat>, ys: seq<nat>, k: nat)
    requires |s| <= k
    requires forall x :: x in ys <==> x in xs && x != k
    ensures Without(s, xs) == Without(s, ys)
  {
    if |s| > 0 {
      AgreeBelow(s[..|s| - 1], xs, ys, k);
    }
  }

  // ----- the slots left in place

  lemma {:induction false} KeptEmbeds<T(!new)>(s: seq<T>, xs: seq<nat>)
    ensures Embeds(Without(s, xs), s, Kept(|s|, xs))
  {
    var n := |s|;
    if n > 0 {
      KeptEmbeds(s[..n - 1], xs);
      assert Positions(n)[..n - 1] == Positions(n - 1);
      assert Kept(n, xs) == Kept(n - 1, xs) + (if n - 1 in xs then [] else [n - 1]);
      var at := Kept(n, xs);
      forall i | 0 <= i < |at|
        ensures at[i] < |s| && Without(s, xs)[i] == s[at[i]]
      {
        if i < |Kept(n - 1, xs)| {
          assert at[i] == Kept(n - 1, xs)[i];
          assert at[i] < |s[..n - 1]|;
        }
      }
    }
  }

  /** Position `p` of the shortened list is a slot not in `xs`, of rank `p`. */
  lemma {:induction false} KeptRank(n: nat, xs: seq<nat>, p: nat)
    requires Distinct(xs) && p < |Kept(n, xs)|
    ensures Kept(n, xs)[p] < n && Kept(n, xs)[p] !in xs
    ensures Rank(xs, Kept(n, xs)[p]) == p
  {
    if n > 0 {
      assert Positions(n)[..n - 1] == Positions(n - 1);
      if p < |Kept(n - 1, xs)| {
        KeptRank(n - 1, xs, p);
      } else {
        WithoutLength(Positions(n - 1), xs);
      }
    }
  }

  lemma EmbedsTrans<T(!new)>(a: seq<T>, b: seq<T>, c: seq<T>, ab: seq<nat>, bc: seq<nat>) returns (ac: seq<nat>)
    requires Embeds(a, b, ab) && Embeds(b, c, bc)
    ensures Embeds(a, c, ac)
  {
    ac := seq(|ab|, i requires 0 <= i < |ab| => bc[ab[i]]);
  }
}
