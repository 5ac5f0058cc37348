/** Polynomials over a field as coefficient sequences, lowest degree first: evaluation, division by a
    linear factor, counting roots, formal derivative, and convolution with a sequence. */
module Polynomials {
  import opened Bits
  import opened Galois
  import opened Sums

  /** The coefficient at i; zero outside the stored range. */
  function C(p: seq<nat>, i: int): nat {
    if 0 <= i < |p| then p[i] else 0
  }

  ghost predicate InFieldAll(f: Field, p: seq<nat>) {
    forall i :: 0 <= i < |p| ==> p[i] < f.size
  }

  ghost predicate DegreeAtMost(p: seq<nat>, d: int) {
    forall i: int {:trigger C(p, i)} :: i > d ==> C(p, i) == 0
  }

  // ---------------------------------------------------------------------------------------------
  // Evaluation
  // ---------------------------------------------------------------------------------------------

  function EvalTerm(f: Gf, p: seq<nat>, x: nat): nat -> nat {
    (i: nat) => Mul(f, C(p, i), XPow(f, x, i))
  }

  /** The first n terms of p at x. */
  function Eval(f: Gf, p: seq<nat>, x: nat, n: nat): nat {
    Sum(n, EvalTerm(f, p, x))
  }

  lemma EvalExtend(f: Gf, p: seq<nat>, x: nat, m: nat, n: nat)
    requires m <= n && DegreeAtMost(p, m - 1)
    ensures Eval(f, p, x, n) == Eval(f, p, x, m)
  {
    forall i: nat | m <= i < n ensures EvalTerm(f, p, x)(i) == 0 {
      assert C(p, i) == 0;
      MulZero(f, XPow(f, x, i));
    }
    SumExtend(m, n, EvalTerm(f, p, x));
  }

  // ---- division by 1 + a z ----------------------------------------------------------------------

  /** Coefficient i of the power series p / (1 + a z). */
  function Quotient(f: Gf, p: seq<nat>, a: nat, i: nat): nat {
    if i == 0 then C(p, 0) else Xor(C(p, i), Mul(f, a, Quotient(f, p, a, i - 1)))
  }

  /** Its first n coefficients. */
  function Quotients(f: Gf, p: seq<nat>, a: nat, n: nat): (q: seq<nat>)
    ensures |q| == n && forall i :: 0 <= i < n ==> q[i] == Quotient(f, p, a, i)
  {
    seq(n, i requires 0 <= i < n => Quotient(f, p, a, i))
  }

  lemma {:induction false} QuotientInField(f: Gf, p: seq<nat>, a: nat, i: nat)
    requires InFieldAll(f, p)
    ensures Quotient(f, p, a, i) < f.size
  {
    hide Xor, Mul;
    if i > 0 {
      QuotientInField(f, p, a, i - 1);
      AddInField(f, C(p, i), Mul(f, a, Quotient(f, p, a, i - 1)));
    }
  }

  /** Stopping the division after n terms leaves p(x) = (1 + a x) q(x) + a q(n-1) x^n. */
  lemma {:induction false} DivisionStep(f: Gf, p: seq<nat>, a: nat, x: nat, q: seq<nat>, n: nat)
    requires n <= |q| && InFieldAll(f, p)
    requires forall i :: 0 <= i < |q| ==> q[i] == Quotient(f, p, a, i)
    ensures Eval(f, p, x, n) == Xor(Xor(Eval(f, q, x, n), Mul(f, Mul(f, a, x), Eval(f, q, x, n))),
                                    if n == 0 then 0 else Mul(f, Mul(f, a, q[n - 1]), XPow(f, x, n)))
  {
    hide Xor, Mul;
    if n == 0 {
      MulZero(f, Mul(f, a, x));
      XorZero(0);
    } else {
      DivisionStep(f, p, a, x, q, n - 1);
      var E, y := Eval(f, q, x, n - 1), Mul(f, a, x);
      var w := XPow(f, x, n - 1);
      var t := Mul(f, q[n - 1], w);
      assert Eval(f, q, x, n) == Xor(E, t);
      assert Eval(f, p, x, n) == Xor(Eval(f, p, x, n - 1), Mul(f, C(p, n - 1), w));
      MulDistrib(f, y, E, t);
      // the remainder of step n is a x times the new term
      RemainderMoves(f, a, x, q[n - 1], w);
      assert Mul(f, y, t) == Mul(f, Mul(f, a, q[n - 1]), XPow(f, x, n));
      var r := if n == 1 then 0 else Mul(f, Mul(f, a, q[n - 2]), w);
      assert Mul(f, C(p, n - 1), w) == Xor(t, r) by {
        if n == 1 {
          XorZero(t);
        } else {
          var b := Mul(f, a, q[n - 2]);
          XorCancel(C(p, n - 1), b);
          MulDistribRight(f, q[n - 1], b, w);
        }
      }
      Regroup(E, Mul(f, y, E), r, t, Mul(f, y, t));
    }
  }

  lemma RemainderMoves(f: Gf, a: nat, x: nat, c: nat, w: nat)
    ensures Mul(f, Mul(f, a, x), Mul(f, c, w)) == Mul(f, Mul(f, a, c), Mul(f, x, w))
  {
    hide Mul;
    MulAssoc(f, a, x, Mul(f, c, w));
    MulAssoc(f, x, c, w);
    MulComm(f, x, c);
    MulAssoc(f, c, x, w);
    MulAssoc(f, a, c, Mul(f, x, w));
  }

  lemma Regroup(e: nat, ye: nat, r: nat, t: nat, yt: nat)
    ensures Xor(Xor(Xor(e, ye), r), Xor(t, r)) == Xor(Xor(Xor(e, t), Xor(ye, yt)), yt)
  {
    hide Xor;
    XorSwap(Xor(e, ye), r, t, r);
    XorSelf(r);
    XorZero(Xor(Xor(e, ye), t));
    XorAssoc(Xor(e, t), Xor(ye, yt), yt);
    XorCancel(ye, yt);
    XorAssoc(e, ye, t);
    XorComm(ye, t);
    XorAssoc(e, t, ye);
  }

  /** If 1/a is a root of p then the division is exact: the quotient stops one degree below p. */
  lemma {:induction false} DivisionExact(f: Gf, p: seq<nat>, a: nat, d: nat, i: nat)
    requires InFieldAll(f, p) && 0 < a < f.size && DegreeAtMost(p, d)
    requires Eval(f, p, Inv(f, a), d + 1) == 0
    requires i >= d
    ensures Quotient(f, p, a, i) == 0
  {
    hide Xor, Mul, Inv, Eval;
    if i == d {
      RemainderVanishes(f, p, a, d);
    } else {
      DivisionExact(f, p, a, d, i - 1);
      assert C(p, i) == 0;
      MulZero(f, a);
      XorZero(0);
    }
  }

  lemma RemainderVanishes(f: Gf, p: seq<nat>, a: nat, d: nat)
    requires InFieldAll(f, p) && 0 < a < f.size
    requires Eval(f, p, Inv(f, a), d + 1) == 0
    ensures Quotient(f, p, a, d) == 0
  {
    hide Xor, Mul, Inv, Eval, Quotient;
    var x := Inv(f, a);
    var q := Quotients(f, p, a, d + 1);
    DivisionStep(f, p, a, x, q, d + 1);
    var E := Eval(f, q, x, d + 1);
    MulInv(f, a);
    EvalInField(f, q, x, d + 1);
    MulOne(f, E);
    XorSelf(E);
    XorZero(Mul(f, Mul(f, a, q[d]), XPow(f, x, d + 1)));
    XPowNonzero(f, x, d + 1);
    QuotientInField(f, p, a, d);
    MulNonzero(f, Mul(f, a, q[d]), XPow(f, x, d + 1));
    MulNonzero(f, a, q[d]);
  }

  lemma {:induction false} EvalInField(f: Gf, p: seq<nat>, x: nat, n: nat)
    ensures Eval(f, p, x, n) < f.size
  {
    hide Xor, Mul;
    if n > 0 {
      EvalInField(f, p, x, n - 1);
      AddInField(f, Eval(f, p, x, n - 1), EvalTerm(f, p, x)(n - 1));
    }
  }

  /** With an exact quotient q, p(x) = (1 + a x) q(x). */
  lemma FactorEval(f: Gf, p: seq<nat>, a: nat, d: nat, x: nat)
    requires InFieldAll(f, p) && 0 < a < f.size && DegreeAtMost(p, d)
    requires Eval(f, p, Inv(f, a), d + 1) == 0
    ensures var q := Quotients(f, p, a, d);
      Eval(f, p, x, d + 1) == Mul(f, Xor(1, Mul(f, a, x)), Eval(f, q, x, d))
  {
    hide Xor, Mul;
    var q, q' := Quotients(f, p, a, d), Quotients(f, p, a, d + 1);
    DivisionExact(f, p, a, d, d);
    DivisionStep(f, p, a, x, q', d + 1);
    MulZero(f, a);
    MulZero(f, XPow(f, x, d + 1));
    var E := Eval(f, q, x, d);
    assert Eval(f, q', x, d + 1) == E by {
      SumExt(d, EvalTerm(f, q, x), EvalTerm(f, q', x));
      MulZero(f, XPow(f, x, d));
      XorZero(E);
    }
    XorZero(Xor(E, Mul(f, Mul(f, a, x), E)));
    EvalInField(f, q, x, d);
    MulDistribRight(f, 1, Mul(f, a, x), E);
    MulOne(f, E);
  }

  // ---- counting roots ---------------------------------------------------------------------------

  ghost predicate Distinct(xs: seq<nat>) {
    forall i, j :: 0 <= i < j < |xs| ==> xs[i] != xs[j]
  }

  ghost predicate Units(f: Field, xs: seq<nat>) {
    forall i :: 0 <= i < |xs| ==> 0 < xs[i] < f.size
  }

  /** Every 1/xs[i] is a root of p, a polynomial of degree at most d. */
  ghost predicate Roots(f: Gf, p: seq<nat>, d: nat, xs: seq<nat>)
    requires Units(f, xs)
  {
    forall i :: 0 <= i < |xs| ==> Eval(f, p, Inv(f, xs[i]), d + 1) == 0
  }

  /** Removing one root leaves the others in place. */
  lemma RootsOfQuotient(f: Gf, p: seq<nat>, d: nat, xs: seq<nat>)
    requires InFieldAll(f, p) && DegreeAtMost(p, d) && |xs| > 0
    requires Units(f, xs) && Distinct(xs) && Roots(f, p, d, xs)
    ensures forall i :: 1 <= i < |xs| ==> Eval(f, Quotients(f, p, xs[0], d), Inv(f, xs[i]), d) == 0
  {
    var a := xs[0];
    var q := Quotients(f, p, a, d);
    forall i | 1 <= i < |xs| ensures Eval(f, q, Inv(f, xs[i]), d) == 0 {
      hide Xor, Mul, Inv, Eval, Quotients;
      var x := Inv(f, xs[i]);
      FactorEval(f, p, a, d, x);
      OneMinusNonzero(f, a, xs[i]);
      EvalInField(f, q, x, d);
      MulNonzero(f, Xor(1, Mul(f, a, x)), Eval(f, q, x, d));
    }
  }

  lemma OneMinusNonzero(f: Gf, a: nat, b: nat)
    requires 0 < a < f.size && 0 < b < f.size && a != b
    ensures 0 < Xor(1, Mul(f, a, Inv(f, b))) < f.size
  {
    hide Xor, Mul, Inv;
    var u := Mul(f, a, Inv(f, b));
    XorEq(1, u);
    AddInField(f, 1, u);
    if u == 1 {
      MulAssoc(f, a, Inv(f, b), b);
      MulInv(f, b);
      MulOne(f, a);
      MulOne(f, b);
      assert false;
    }
  }

  /** A polynomial with a nonzero constant term has at most as many roots as its degree. */
  lemma {:induction false} RootCount(f: Gf, p: seq<nat>, d: nat, xs: seq<nat>)
    requires InFieldAll(f, p) && C(p, 0) != 0 && DegreeAtMost(p, d)
    requires Units(f, xs) && Distinct(xs) && Roots(f, p, d, xs)
    ensures |xs| <= d
    decreases d
  {
    hide Xor, Mul, Inv, Eval;
    if |xs| > 0 {
      var a := xs[0];
      assert Eval(f, p, Inv(f, a), d + 1) == 0;
      DivisionExact(f, p, a, d, d);
      assert Quotient(f, p, a, 0) == C(p, 0);
      hide Quotient;
      if d > 0 {
        var q, ys := Quotients(f, p, a, d), xs[1..];
        RootsOfQuotient(f, p, d, xs);
        assert InFieldAll(f, q) by {
          forall i | 0 <= i < d ensures q[i] < f.size {
            QuotientInField(f, p, a, i);
          }
        }
        assert Units(f, ys) && Distinct(ys);
        assert Roots(f, q, d - 1, ys) by {
          forall i | 0 <= i < |ys| ensures Eval(f, q, Inv(f, ys[i]), d) == 0 {
            assert ys[i] == xs[i + 1];
          }
        }
        RootCount(f, q, d - 1, ys);
      }
    }
  }
}
