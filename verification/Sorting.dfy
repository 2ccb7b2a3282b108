/** Sorting by a total order: the sorted form of a list is fixed by its multiset. */
module Sorting {
  ghost predicate TotalOrder<T(!new)>(leq: (T, T) -> bool) {
    && (forall a, b :: leq(a, b) || leq(b, a))
    && (forall a, b :: leq(a, b) && leq(b, a) ==> a == b)
    && (forall a, b, c :: leq(a, b) && leq(b, c) ==> leq(a, c))
  }

  ghost predicate Sorted<T>(xs: seq<T>, leq: (T, T) -> bool) {
    forall i, j :: 0 <= i < j < |xs| ==> leq(xs[i], xs[j])
  }

  function Insert<T>(xs: seq<T>, x: T, leq: (T, T) -> bool): seq<T> {
    if |xs| == 0 then [x]
    else if leq(x, xs[0]) then [x] + xs
    else [xs[0]] + Insert(xs[1..], x, leq)
  }

  function Sort<T>(xs: seq<T>, leq: (T, T) -> bool): seq<T> {
    if |xs| == 0 then [] else Insert(Sort(xs[1..], leq), xs[0], leq)
  }

  lemma {:induction false} InsertKeeps<T>(xs: seq<T>, x: T, leq: (T, T) -> bool)
    ensures multiset(Insert(xs, x, leq)) == multiset(xs) + multiset{x}
  {
    if |xs| > 0 {
      assert xs == [xs[0]] + xs[1..];
      if !leq(x, xs[0]) {
        InsertKeeps(xs[1..], x, leq);
      }
    }
  }

  lemma {:induction false} SortKeeps<T>(xs: seq<T>, leq: (T, T) -> bool)
    ensures multiset(Sort(xs, leq)) == multiset(xs)
  {
    if |xs| > 0 {
      assert xs == [xs[0]] + xs[1..];
      SortKeeps(xs[1..], leq);
      InsertKeeps(Sort(xs[1..], leq), xs[0], leq);
    }
  }

  lemma {:induction false} InsertSorts<T(!new)>(xs: seq<T>, x: T, leq: (T, T) -> bool)
    requires TotalOrder(leq) && Sorted(xs, leq)
    ensures Sorted(Insert(xs, x, leq), leq)
  {
    if |xs| > 0 && !leq(x, xs[0]) {
      var later := Insert(xs[1..], x, leq);
      InsertSorts(xs[1..], x, leq);
      InsertKeeps(xs[1..], x, leq);
      forall i | 0 <= i < |later|
        ensures leq(xs[0], later[i])
      {
        assert later[i] in multiset(later);
        if later[i] != x {
          assert later[i] in xs[1..];
        }
      }
    }
  }

  lemma {:induction false} SortSorts<T(!new)>(xs: seq<T>, leq: (T, T) -> bool)
    requires TotalOrder(leq)
    ensures Sorted(Sort(xs, leq), leq)
  {
    if |xs| > 0 {
      SortSorts(xs[1..], leq);
      InsertSorts(Sort(xs[1..], leq), xs[0], leq);
    }
  }

  lemma WithoutHead<T>(xs: seq<T>)
    requires |xs| > 0
    ensures multiset(xs[1..]) == multiset(xs) - multiset{xs[0]}
    ensures xs == [xs[0]] + xs[1..]
  {
    assert xs == [xs[0]] + xs[1..];
  }

  lemma SameHead<T(!new)>(xs: seq<T>, ys: seq<T>, leq: (T, T) -> bool)
    requires TotalOrder(leq) && Sorted(xs, leq) && Sorted(ys, leq) && multiset(xs) == multiset(ys) && |xs| > 0
    ensures |ys| > 0 && xs[0] == ys[0]
  {
    assert xs[0] in multiset(ys);
    assert ys[0] in multiset(xs);
    var i :| 0 <= i < |ys| && ys[i] == xs[0];
    var j :| 0 <= j < |xs| && xs[j] == ys[0];
    assert leq(ys[0], ys[i]) && leq(xs[0], xs[j]);
  }

  /** Two sorted lists of the same entries are the same list. */
  lemma {:induction false} SortedIsUnique<T(!new)>(xs: seq<T>, ys: seq<T>, leq: (T, T) -> bool)
    requires TotalOrder(leq) && Sorted(xs, leq) && Sorted(ys, leq) && multiset(xs) == multiset(ys)
    ensures xs == ys
  {
    if |xs| == 0 {
      assert |multiset(ys)| == 0;
    } else {
      SameHead(xs, ys, leq);
      WithoutHead(xs);
      WithoutHead(ys);
      SortedIsUnique(xs[1..], ys[1..], leq);
    }
  }

  /** Sorted forms agree exactly when the multisets do. */
  lemma SameSorted<T(!new)>(xs: seq<T>, ys: seq<T>, leq: (T, T) -> bool)
    requires TotalOrder(leq)
    ensures Sort(xs, leq) == Sort(ys, leq) <==> multiset(xs) == multiset(ys)
  {
    SortKeeps(xs, leq);
    SortKeeps(ys, leq);
    if multiset(xs) == multiset(ys) {
      SortSorts(xs, leq);
      SortSorts(ys, leq);
      SortedIsUnique(Sort(xs, leq), Sort(ys, leq), leq);
    }
  }

  // ----- lexicographic order

  predicate Lex<T(==)>(a: seq<T>, b: seq<T>, leq: (T, T) -> bool) {
    if |a| == 0 then true
    else if |b| == 0 then false
    else if a[0] == b[0] then Lex(a[1..], b[1..], leq)
    else leq(a[0], b[0])
  }

  lemma {:induction false} LexTotal<T(!new)>(a: seq<T>, b: seq<T>, leq: (T, T) -> bool)
    requires TotalOrder(leq)
    ensures Lex(a, b, leq) || Lex(b, a, leq)
    ensures Lex(a, b, leq) && Lex(b, a, leq) ==> a == b
  {
    if |a| > 0 && |b| > 0 && a[0] == b[0] {
      LexTotal(a[1..], b[1..], leq);
      assert a == [a[0]] + a[1..] && b == [b[0]] + b[1..];
    }
  }

  lemma {:induction false} LexTransitive<T(!new)>(a: seq<T>, b: seq<T>, c: seq<T>, leq: (T, T) -> bool)
    requires TotalOrder(leq) && Lex(a, b, leq) && Lex(b, c, leq)
    ensures Lex(a, c, leq)
  {
    if |a| > 0 && a[0] == b[0] == c[0] {
      LexTransitive(a[1..], b[1..], c[1..], leq);
    }
  }

  predicate CharLeq(a: char, b: char) {
    a <= b
  }

  /** Python's order of strings, by code points. */
  predicate StringLeq(a: string, b: string) {
    Lex(a, b, CharLeq)
  }

  /** Python's order of tuples of strings. */
  predicate TupleLeq(a: seq<string>, b: seq<string>) {
    Lex(a, b, StringLeq)
  }

  lemma StringOrder()
    ensures TotalOrder(StringLeq)
  {
    forall a: string, b: string
      ensures StringLeq(a, b) || StringLeq(b, a)
      ensures StringLeq(a, b) && StringLeq(b, a) ==> a == b
    {
      LexTotal(a, b, CharLeq);
    }
    forall a: string, b: string, c: string | StringLeq(a, b) && StringLeq(b, c)
      ensures StringLeq(a, c)
    {
      LexTransitive(a, b, c, CharLeq);
    }
  }

  lemma TupleOrder()
    ensures TotalOrder(TupleLeq)
  {
    StringOrder();
    forall a: seq<string>, b: seq<string>
      ensures TupleLeq(a, b) || TupleLeq(b, a)
      ensures TupleLeq(a, b) && TupleLeq(b, a) ==> a == b
    {
      LexTotal(a, b, StringLeq);
    }
    forall a: seq<string>, b: seq<string>, c: seq<string> | TupleLeq(a, b) && TupleLeq(b, c)
      ensures TupleLeq(a, c)
    {
      LexTransitive(a, b, c, StringLeq);
    }
  }
}
