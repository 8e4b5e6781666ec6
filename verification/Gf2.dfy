/** Polynomials over the field of two elements, as their sets of exponents. */
module Gf2 {
  type Poly = set<nat>

  function Add(a: Poly, b: Poly): Poly {
    (a - b) + (b - a)
  }

  /** The product with a power of x. */
  function Shift(a: Poly, n: nat): Poly {
    set e | e in a :: e + n
  }

  /** The product with the polynomial whose coefficients are listed from the constant term up. */
  function Times(q: seq<bool>, g: Poly): Poly {
    if q == [] then {} else Add(if q[0] then g else {}, Shift(Times(q[1..], g), 1))
  }

  /** The two differ by a multiple of g. */
  ghost predicate Congruent(a: Poly, b: Poly, g: Poly) {
    exists q :: Times(q, g) == Add(a, b)
  }

  predicate DegreeBelow(a: Poly, n: nat) {
    forall e :: e in a ==> e < n
  }

  ghost predicate IsRemainder(r: Poly, p: Poly, g: Poly, degree: nat) {
    DegreeBelow(r, degree) && Congruent(p, r, g)
  }

  lemma InShift(a: Poly, n: nat, e: nat)
    ensures e in Shift(a, n) <==> e >= n && e - n in a
  {
    if e >= n && e - n in a { assert (e - n) + n in Shift(a, n); }
  }

  lemma ShiftOfSum(a: Poly, b: Poly, n: nat)
    ensures Shift(Add(a, b), n) == Add(Shift(a, n), Shift(b, n))
  {
    forall e: nat ensures e in Shift(Add(a, b), n) <==> e in Add(Shift(a, n), Shift(b, n)) {
      InShift(Add(a, b), n, e);
      InShift(a, n, e);
      InShift(b, n, e);
    }
  }

  lemma ShiftTwice(a: Poly, m: nat, n: nat)
    ensures Shift(Shift(a, m), n) == Shift(a, m + n)
  {
    forall e: nat ensures e in Shift(Shift(a, m), n) <==> e in Shift(a, m + n) {
      InShift(Shift(a, m), n, e);
      InShift(a, m + n, e);
      if e >= n { InShift(a, m, e - n); }
    }
  }

  // Congruence

  function SumOf(q: seq<bool>, r: seq<bool>): seq<bool> {
    if q == [] then r else if r == [] then q else [q[0] != r[0]] + SumOf(q[1..], r[1..])
  }

  lemma {:induction false} TimesSum(q: seq<bool>, r: seq<bool>, g: Poly)
    ensures Times(SumOf(q, r), g) == Add(Times(q, g), Times(r, g))
  {
    if q == [] || r == [] {
    } else {
      TimesSum(q[1..], r[1..], g);
      ShiftOfSum(Times(q[1..], g), Times(r[1..], g), 1);
      assert SumOf(q, r)[1..] == SumOf(q[1..], r[1..]);
    }
  }

  lemma Reflexive(a: Poly, g: Poly)
    ensures Congruent(a, a, g)
  {
    assert Times([], g) == Add(a, a);
  }

  lemma Transitive(a: Poly, b: Poly, c: Poly, g: Poly)
    requires Congruent(a, b, g) && Congruent(b, c, g)
    ensures Congruent(a, c, g)
  {
    var q :| Times(q, g) == Add(a, b);
    var r :| Times(r, g) == Add(b, c);
    TimesSum(q, r, g);
    assert Add(Add(a, b), Add(b, c)) == Add(a, c);
  }

  lemma SumsCongruent(a: Poly, b: Poly, c: Poly, g: Poly)
    requires Congruent(a, b, g)
    ensures Congruent(Add(a, c), Add(b, c), g)
  {
    var q :| Times(q, g) == Add(a, b);
    assert Add(Add(a, c), Add(b, c)) == Add(a, b);
  }

  lemma {:induction false} ShiftsCongruent(a: Poly, b: Poly, g: Poly, n: nat)
    requires Congruent(a, b, g)
    ensures Congruent(Shift(a, n), Shift(b, n), g)
    decreases n
  {
    if n == 0 {
      assert Shift(a, 0) == a && Shift(b, 0) == b;
    } else {
      ShiftsCongruent(a, b, g, n - 1);
      ShiftTwice(a, n - 1, 1);
      ShiftTwice(b, n - 1, 1);
      var q :| Times(q, g) == Add(Shift(a, n - 1), Shift(b, n - 1));
      ShiftOfSum(Shift(a, n - 1), Shift(b, n - 1), 1);
      assert ([false] + q)[1..] == q;
      assert Times([false] + q, g) == Add(Shift(a, n), Shift(b, n));
    }
  }

  // A remainder is unique

  ghost predicate Leads(top: nat, a: Poly) {
    top in a && forall e :: e in a ==> e <= top
  }

  /** A multiple of g is zero or at least as long as g. */
  lemma {:induction false} MultipleLeads(q: seq<bool>, g: Poly, degree: nat)
    requires Leads(degree, g)
    ensures Times(q, g) == {} || exists top :: top >= degree && Leads(top, Times(q, g))
  {
    if q == [] {
    } else {
      MultipleLeads(q[1..], g, degree);
      var rest := Times(q[1..], g);
      forall e: nat ensures e in Shift(rest, 1) <==> e >= 1 && e - 1 in rest { InShift(rest, 1, e); }
      if rest == {} {
        assert Shift(rest, 1) == {};
        assert q[0] ==> Leads(degree, Times(q, g));
      } else {
        var top :| top >= degree && Leads(top, rest);
        assert Leads(top + 1, Times(q, g));
      }
    }
  }

  lemma RemainderIsUnique(r: Poly, s: Poly, p: Poly, g: Poly, degree: nat)
    requires Leads(degree, g)
    requires IsRemainder(r, p, g, degree) && IsRemainder(s, p, g, degree)
    ensures r == s
  {
    assert Congruent(r, p, g) by {
      var q :| Times(q, g) == Add(p, r);
      assert Add(r, p) == Add(p, r);
    }
    Transitive(r, p, s, g);
    var q :| Times(q, g) == Add(r, s);
    MultipleLeads(q, g, degree);
    forall e ensures e in r <==> e in s { assert e in Add(r, s) <==> (e in r) != (e in s); }
  }
}
