/**
 * Polynomials over GF(2).  A polynomial is the set of exponents whose coefficient is 1, so
 * addition is symmetric difference and multiplication by x raises every exponent by one.
 */
module Gf2 {

  type Poly = set<nat>

  function Add(a: Poly, b: Poly): Poly { (a - b) + (b - a) }

  /** `a * x^n` */
  function Raise(a: Poly, n: nat): (r: Poly)
    ensures forall e: nat :: e in r <==> e >= n && e - n in a
  {
    var r := set e: nat | e in a :: e + n;
    RaiseMembers(a, n, r);
    r
  }

  lemma RaiseMembers(a: Poly, n: nat, r: Poly)
    requires r == set d: nat | d in a :: d + n
    ensures forall e: nat :: e in r <==> e >= n && e - n in a
  {
    forall e: nat
      ensures e in r <==> e >= n && e - n in a
    {
      if e >= n {
        var d: nat := e - n;
        assert d in a ==> d + n in r;
      }
    }
  }

  /** `q * g`, the coefficients of `q` listed from the highest power down (Horner's scheme). */
  ghost function Times(q: seq<bool>, g: Poly): Poly {
    if q == [] then {}
    else
      var higher := Raise(Times(q[..|q| - 1], g), 1);
      if q[|q| - 1] then Add(higher, g) else higher
  }

  /** `a` and `r` differ by a multiple of `g`. */
  ghost predicate Congruent(a: Poly, r: Poly, g: Poly) {
    exists q: seq<bool> :: a == Add(Times(q, g), r)
  }

  ghost predicate DegreeBelow(a: Poly, n: nat) { forall e :: e in a ==> e < n }

  /** `r` is what is left of `a` after division by `g`, a polynomial of degree `w`. */
  ghost predicate IsRemainder(a: Poly, r: Poly, g: Poly, w: nat) {
    DegreeBelow(r, w) && Congruent(a, r, g)
  }

  // ----- congruence

  lemma CongruentSelf(a: Poly, g: Poly)
    ensures Congruent(a, a, g)
  {
    assert a == Add(Times([], g), a);
  }

  lemma CongruentAdd(a: Poly, r: Poly, g: Poly, c: Poly)
    requires Congruent(a, r, g)
    ensures Congruent(Add(a, c), Add(r, c), g)
  {
    var q :| a == Add(Times(q, g), r);
    assert Add(a, c) == Add(Times(q, g), Add(r, c));
  }

  /** One step of long division: bring down a zero, and subtract `g` if `borrow`. */
  lemma CongruentRaise(a: Poly, r: Poly, g: Poly, borrow: bool)
    requires Congruent(a, r, g)
    ensures Congruent(Raise(a, 1), if borrow then Add(Raise(r, 1), g) else Raise(r, 1), g)
  {
    var q :| a == Add(Times(q, g), r);
    var q' := q + [borrow];
    assert q'[..|q'| - 1] == q;
    var r' := if borrow then Add(Raise(r, 1), g) else Raise(r, 1);
    assert Raise(a, 1) == Add(Times(q', g), r');
  }

  lemma RaiseZero(a: Poly)
    ensures Raise(a, 0) == a
  {
  }

  lemma RaiseRaise(a: Poly, m: nat, n: nat)
    ensures Raise(Raise(a, m), n) == Raise(a, m + n)
  {
  }

  lemma RaiseAdd(a: Poly, b: Poly, n: nat)
    ensures Raise(Add(a, b), n) == Add(Raise(a, n), Raise(b, n))
  {
  }

  // ----- the remainder is unique

  /** A non-zero multiple of `g` reaches degree `w` at least. */
  lemma {:induction false} MultipleHasDegree(q: seq<bool>, g: Poly, w: nat) returns (top: nat)
    requires w in g && DegreeBelow(g, w + 1) && true in q
    ensures top >= w && top in Times(q, g) && DegreeBelow(Times(q, g), top + 1)
  {
    var q0 := q[..|q| - 1];
    assert q == q0 + [q[|q| - 1]];
    if true in q0 {
      var below := MultipleHasDegree(q0, g, w);
      top := below + 1;
    } else {
      NoMultiple(q0, g);
      top := w;
      assert Times(q, g) == Add(Raise({}, 1), g) == g;
    }
  }

  lemma {:induction false} NoMultiple(q: seq<bool>, g: Poly)
    requires true !in q
    ensures Times(q, g) == {}
  {
    if q != [] {
      NoMultiple(q[..|q| - 1], g);
    }
  }

  lemma {:induction false} LeadingZero(q: seq<bool>, g: Poly)
    ensures Times([false] + q, g) == Times(q, g)
  {
    if q == [] {
      NoMultiple([false], g);
      assert [false] + q == [false];
    } else {
      var p := [false] + q;
      assert p[..|p| - 1] == [false] + q[..|q| - 1];
      LeadingZero(q[..|q| - 1], g);
    }
  }

  lemma {:induction false} PadTo(q: seq<bool>, g: Poly, n: nat) returns (p: seq<bool>)
    requires |q| <= n
    ensures |p| == n && Times(p, g) == Times(q, g)
    decreases n - |q|
  {
    if |q| == n {
      p := q;
    } else {
      LeadingZero(q, g);
      p := PadTo([false] + q, g, n);
    }
  }

  function SumBits(a: seq<bool>, b: seq<bool>): (s: seq<bool>)
    requires |a| == |b|
    ensures |s| == |a|
  {
    seq(|a|, i requires 0 <= i < |a| => a[i] != b[i])
  }

  lemma {:induction false} TimesSum(a: seq<bool>, b: seq<bool>, g: Poly)
    requires |a| == |b|
    ensures Times(SumBits(a, b), g) == Add(Times(a, g), Times(b, g))
  {
    if a != [] {
      var n := |a| - 1;
      assert SumBits(a, b)[..n] == SumBits(a[..n], b[..n]);
      TimesSum(a[..n], b[..n], g);
      RaiseAdd(Times(a[..n], g), Times(b[..n], g), 1);
    }
  }

  /** If two multiples of `g` with the remainders added agree, the difference is a multiple too. */
  lemma DifferenceIsMultiple(q: seq<bool>, p: seq<bool>, r: Poly, s: Poly, g: Poly) returns (d: seq<bool>)
    requires Add(Times(q, g), r) == Add(Times(p, g), s)
    ensures Times(d, g) == Add(r, s)
  {
    var n := if |q| < |p| then |p| else |q|;
    var q' := PadTo(q, g, n);
    var p' := PadTo(p, g, n);
    TimesSum(q', p', g);
    d := SumBits(q', p');
    Cancel(Times(q, g), Times(p, g), r, s);
  }

  lemma Cancel(a: Poly, b: Poly, r: Poly, s: Poly)
    requires Add(a, r) == Add(b, s)
    ensures Add(a, b) == Add(r, s)
  {
    forall e: nat
      ensures e in Add(a, b) <==> e in Add(r, s)
    {
      assert e in Add(a, r) <==> e in Add(b, s);
    }
  }

  /** Division by a polynomial of degree `w` leaves one remainder only. */
  lemma RemainderUnique(a: Poly, r: Poly, s: Poly, g: Poly, w: nat)
    requires w in g && DegreeBelow(g, w + 1)
    requires IsRemainder(a, r, g, w) && IsRemainder(a, s, g, w)
    ensures r == s
  {
    var q :| a == Add(Times(q, g), r);
    var p :| a == Add(Times(p, g), s);
    var d := DifferenceIsMultiple(q, p, r, s, g);
    if true in d {
      var top := MultipleHasDegree(d, g, w);
      assert false;
    }
    NoMultiple(d, g);
    assert forall e: nat :: e in r <==> e in s;
  }
}
