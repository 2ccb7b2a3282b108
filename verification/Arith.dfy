/** Machine integers, and products of naturals by name with the few laws the ratio proofs use. */
module Arith {
  const U32_MAX: nat := 0xFFFF_FFFF

  type U16 = n: int | 0 <= n <= 0xFFFF
  type U32 = n: int | 0 <= n <= 0xFFFF_FFFF

  function Min(a: nat, b: nat): nat {
    if a <= b then a else b
  }

  function Max(a: nat, b: nat): nat {
    if a >= b then a else b
  }

  /** Rust's `saturating_sub` on `usize` and `u32`. */
  function SaturatingSub(a: nat, b: nat): nat {
    if a < b then 0 else a - b
  }

  function Times(a: nat, b: nat): nat {
    a * b
  }

  lemma Commutes(a: nat, b: nat)
    ensures Times(a, b) == Times(b, a)
  {
  }

  lemma Associates(a: nat, b: nat, c: nat)
    ensures Times(Times(a, b), c) == Times(a, Times(b, c))
  {
    assert (a * b) * c == a * (b * c);
  }

  lemma Distributes(a: nat, b: nat, c: nat)
    ensures Times(a, b + c) == Times(a, b) + Times(a, c)
  {
  }

  lemma Units(a: nat)
    ensures Times(a, 1) == a && Times(a, 0) == 0 && Times(1, a) == a && Times(0, a) == 0
  {
  }

  lemma Grows(a: nat, b: nat, c: nat)
    requires b <= c
    ensures Times(a, b) <= Times(a, c)
    ensures a > 0 && b < c ==> Times(a, b) < Times(a, c)
  {
    Distributes(a, b, c - b);
    if a > 0 && b < c {
      assert a * (c - b) == (c - b) + (a - 1) * (c - b);
      assert (a - 1) * (c - b) >= 0;
    }
  }

  lemma QuotientRemainder(n: nat, d: nat)
    requires d > 0
    ensures n == Times(d, n / d) + n % d
  {
  }

  /** A quotient is the greatest factor that fits. */
  lemma QuotientFits(n: nat, d: nat, k: nat)
    requires d > 0
    ensures Times(d, k) <= n <==> k <= n / d
  {
    var q := n / d;
    QuotientRemainder(n, d);
    hide Times;
    if k <= q {
      Grows(d, k, q);
    } else {
      Grows(d, q + 1, k);
      Distributes(d, q, 1);
      Units(d);
    }
  }

  lemma ExactQuotient(n: nat, d: nat, q: nat)
    requires d > 0 && Times(d, q) == n
    ensures n / d == q
  {
    QuotientFits(n, d, q);
    QuotientFits(n, d, q + 1);
    hide Times;
    Distributes(d, q, 1);
    Units(d);
  }
}
