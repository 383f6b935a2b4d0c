/** Quotients and multiples. */
module Multiples {

  lemma TimesMod(k: nat, d: nat)
    requires d > 0
    ensures (k * d) % d == 0
    decreases k
  {
    if k > 0 {
      TimesMod(k - 1, d);
      AddMod((k - 1) * d, d, d);
    }
  }

  /** Adding a multiple of `d` keeps the remainder. */
  lemma AddMod(a: nat, b: nat, d: nat)
    requires d > 0 && b % d == 0
    ensures (a + b) % d == a % d
  {
    var q := b / d;
    assert b == q * d;
    assert a + b == (a / d + q) * d + a % d by {
      assert a == (a / d) * d + a % d;
    }
    QuotientUnique(a + b, d, a / d + q, a % d);
  }

  lemma QuotientUnique(n: nat, d: nat, q: nat, r: nat)
    requires d > 0 && r < d && n == q * d + r
    ensures n % d == r && n / d == q
  {
    var p, m := n / d, n % d;
    assert n == p * d + m && 0 <= m < d;
    SameQuotient(p, q, d, m, r);
  }

  lemma SameQuotient(p: nat, q: nat, d: nat, m: nat, r: nat)
    requires p * d + m == q * d + r && m < d && r < d
    ensures p == q && m == r
  {
    if p < q {
      LessTimes(p, q, d);
    } else if q < p {
      LessTimes(q, p, d);
    }
  }

  lemma LessTimes(p: nat, q: nat, d: nat)
    requires p < q
    ensures q * d >= p * d + d
    decreases q
  {
    assert q * d == (q - 1) * d + d;
    if p < q - 1 {
      LessTimes(p, q - 1, d);
    }
  }

  lemma SubMod(a: nat, b: nat, d: nat)
    requires d > 0 && b <= a && b % d == 0 && a % d == 0
    ensures (a - b) % d == 0
  {
    AddMod(a - b, b, d);
  }

  lemma ModMultiple(n: nat, s: nat, d: nat)
    requires d > 0 && s > 0 && s % d == 0 && n % s == 0
    ensures n % d == 0
  {
    var k := s / d;
    assert s == k * d;
    assert n == (n / s) * s;
    assert n == ((n / s) * k) * d;
    TimesMod((n / s) * k, d);
  }
}
