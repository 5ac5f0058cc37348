/** Error magnitudes: at the inverse of a locator the evaluator polynomial over the derivative of the
    locator polynomial is the magnitude of that error. */
module Forney {
  import opened Bits
  import opened Galois
  import opened Sums
  import opened Polynomials
  import opened Recurrences
  import opened ErrorTheory
  import opened BerlekampMassey
  import opened ErrorLocation

  // ---- convolutions below the degree --------------------------------------------------------------------

  function QuotientTerm(f: Gf, p: seq<nat>, a: nat, n: nat): nat -> nat {
    (i: nat) => if i <= n then Mul(f, C(p, i), XPow(f, a, n - i)) else 0
  }

  lemma {:induction false} QuotientSum(f: Gf, p: seq<nat>, a: nat, n: nat)
    requires InFieldAll(f, p)
    ensures Quotient(f, p, a, n) == Sum(n + 1, QuotientTerm(f, p, a, n))
  {
    hide Xor, Mul, IsField;
    FieldPositive(f);
    MulOne(f, C(p, n));
    var g := QuotientTerm(f, p, a, n);
    assert g(n) == C(p, n);
    if n == 0 {
      XorZero(C(p, 0));
      assert Sum(1, g) == Xor(Sum(0, g), g(0));
    } else {
      var h := QuotientTerm(f, p, a, n - 1);
      QuotientSum(f, p, a, n - 1);
      forall i: nat | i < n ensures g(i) == Mul(f, a, h(i)) {
        var w := XPow(f, a, n - 1 - i);
        assert h(i) == Mul(f, C(p, i), w);
        assert g(i) == Mul(f, C(p, i), Mul(f, a, w));
        MulAssoc(f, C(p, i), a, w);
        MulComm(f, C(p, i), a);
        MulAssoc(f, a, C(p, i), w);
      }
      SumScale(f, n, a, h, g);
      XorComm(C(p, n), Sum(n, g));
    }
  }

  function QuotientShare(f: Gf, p: seq<nat>, xs: seq<nat>, ys: seq<nat>, n: nat): nat -> nat {
    (e: nat) => Mul(f, C(ys, e), Quotient(f, p, C(xs, e), n))
  }

  lemma QuotientColumn(f: Gf, p: seq<nat>, xs: seq<nat>, ys: seq<nat>, n: nat, j: nat, F: (nat, nat) -> nat)
    requires InFieldAll(f, p) && |xs| == |ys| && j < |xs| && F == GridTerm(f, p, xs, ys, n)
    ensures QuotientShare(f, p, xs, ys, n)(j) == Sum(n + 1, ColOf(F, j))
  {
    hide Xor, Mul, IsField, XPow, Quotient;
    var col: nat -> nat := (i: nat) => F(i, j);
    var y, x := ys[j], xs[j];
    QuotientSum(f, p, x, n);
    forall i: nat | i < n + 1 ensures col(i) == Mul(f, y, QuotientTerm(f, p, x, n)(i)) {
      var w := XPow(f, x, n - i);
      assert F(i, j) == Mul(f, C(p, i), Mul(f, C(ys, j), XPow(f, C(xs, j), n - i)));
      assert QuotientTerm(f, p, x, n)(i) == Mul(f, C(p, i), w);
      MulAssoc(f, C(p, i), y, w);
      MulComm(f, C(p, i), y);
      MulAssoc(f, y, C(p, i), w);
    }
    SumScale(f, n + 1, y, QuotientTerm(f, p, x, n), col);
    SumExt(n + 1, col, ColOf(F, j));
  }

  lemma QuotientColumns(f: Gf, p: seq<nat>, xs: seq<nat>, ys: seq<nat>, n: nat, F: (nat, nat) -> nat)
    requires InFieldAll(f, p) && |xs| == |ys| && F == GridTerm(f, p, xs, ys, n)
    ensures forall j: nat :: j < |xs| ==> QuotientShare(f, p, xs, ys, n)(j) == Sum(n + 1, ColOf(F, j))
  {
    forall j: nat | j < |xs| ensures QuotientShare(f, p, xs, ys, n)(j) == Sum(n + 1, ColOf(F, j)) {
      QuotientColumn(f, p, xs, ys, n, j, F);
    }
  }

  /** Convolving power sums with p is, at any index, summing the quotients of p by each locator. */
  lemma ConvQuotient(f: Gf, p: seq<nat>, s: seq<nat>, xs: seq<nat>, ys: seq<nat>, N: nat, n: nat)
    requires IsPowerSums(f, s, xs, ys, N) && InFieldAll(f, p) && n < N
    ensures Conv(f, p, s, n) == Sum(|xs|, QuotientShare(f, p, xs, ys, n))
  {
    var t := |xs|;
    assert |ys| == t;
    var F := GridTerm(f, p, xs, ys, n);
    assert Conv(f, p, s, n) == Sum(n + 1, ConvTerm(f, p, s, n));
    hide *;
    GridRows(f, p, s, xs, ys, N, n, n, F);
    QuotientColumns(f, p, xs, ys, n, F);
    SumSwap(n + 1, t, F, ConvTerm(f, p, s, n), QuotientShare(f, p, xs, ys, n));
  }

  // ---- the syndromes shifted by one -----------------------------------------------------------------------

  function Scaled(f: Gf, xs: seq<nat>, ys: seq<nat>): (r: seq<nat>)
    requires |xs| == |ys|
    ensures |r| == |xs| && forall e :: 0 <= e < |xs| ==> r[e] == Mul(f, ys[e], xs[e])
  {
    seq(|xs|, e requires 0 <= e < |xs| => Mul(f, ys[e], xs[e]))
  }

  /** Dropping s[0] multiplies every magnitude by its locator. */
  lemma ShiftedSums(f: Gf, s: seq<nat>, xs: seq<nat>, ys: seq<nat>, N: nat)
    requires IsPowerSums(f, s, xs, ys, N) && N > 0 && |s| > 0
    ensures IsPowerSums(f, s[1..], xs, Scaled(f, xs, ys), N - 1)
  {
    hide Xor, Mul, IsField;
    var zs := Scaled(f, xs, ys);
    forall i: nat | i < N - 1 ensures C(s[1..], i) == PowerSum(f, xs, zs, i) {
      assert C(s[1..], i) == C(s, i + 1) == PowerSum(f, xs, ys, i + 1);
      forall e: nat | e < |xs| ensures PowerTerm(f, xs, zs, i)(e) == PowerTerm(f, xs, ys, i + 1)(e) {
        MulAssoc(f, ys[e], xs[e], XPow(f, xs[e], i));
      }
      SumExt(|xs|, PowerTerm(f, xs, zs, i), PowerTerm(f, xs, ys, i + 1));
    }
  }

  // ---- evaluating the evaluator ---------------------------------------------------------------------------

  /** w holds, at every index, the sum of the scaled quotients. */
  ghost predicate IsEvaluator(f: Gf, w: seq<nat>, p: seq<nat>, xs: seq<nat>, zs: seq<nat>) {
    |w| == MAX_POLY && |xs| == |zs|
    && forall n: nat {:trigger C(w, n)} :: n < MAX_POLY ==> C(w, n) == Sum(|xs|, QuotientShare(f, p, xs, zs, n))
  }

  function EvalShare(f: Gf, p: seq<nat>, xs: seq<nat>, zs: seq<nat>, x: nat): nat -> nat {
    (e: nat) => Mul(f, C(zs, e), Eval(f, Quotients(f, p, C(xs, e), MAX_POLY), x, MAX_POLY))
  }

  function WideTerm(f: Gf, p: seq<nat>, xs: seq<nat>, zs: seq<nat>, x: nat): (nat, nat) -> nat {
    (i: nat, j: nat) => Mul(f, XPow(f, x, i), QuotientShare(f, p, xs, zs, i)(j))
  }

  lemma WideRow(f: Gf, w: seq<nat>, p: seq<nat>, xs: seq<nat>, zs: seq<nat>, x: nat, i: nat, F: (nat, nat) -> nat)
    requires IsEvaluator(f, w, p, xs, zs) && i < MAX_POLY && F == WideTerm(f, p, xs, zs, x)
    ensures EvalTerm(f, w, x)(i) == Sum(|xs|, RowOf(F, i))
  {
    hide Xor, Mul, IsField, XPow, Quotient;
    var row: nat -> nat := (j: nat) => F(i, j);
    assert C(w, i) == Sum(|xs|, QuotientShare(f, p, xs, zs, i));
    SumScale(f, |xs|, XPow(f, x, i), QuotientShare(f, p, xs, zs, i), row);
    MulComm(f, C(w, i), XPow(f, x, i));
    SumExt(|xs|, row, RowOf(F, i));
  }

  lemma WideRows(f: Gf, w: seq<nat>, p: seq<nat>, xs: seq<nat>, zs: seq<nat>, x: nat, F: (nat, nat) -> nat)
    requires IsEvaluator(f, w, p, xs, zs) && F == WideTerm(f, p, xs, zs, x)
    ensures forall i: nat :: i < MAX_POLY ==> EvalTerm(f, w, x)(i) == Sum(|xs|, RowOf(F, i))
  {
    forall i: nat | i < MAX_POLY ensures EvalTerm(f, w, x)(i) == Sum(|xs|, RowOf(F, i)) {
      WideRow(f, w, p, xs, zs, x, i, F);
    }
  }

  lemma WideColumn(f: Gf, p: seq<nat>, xs: seq<nat>, zs: seq<nat>, x: nat, j: nat, F: (nat, nat) -> nat)
    requires |xs| == |zs| && j < |xs| && F == WideTerm(f, p, xs, zs, x)
    ensures EvalShare(f, p, xs, zs, x)(j) == Sum(MAX_POLY, ColOf(F, j))
  {
    hide Xor, Mul, IsField, XPow, Quotient;
    var col: nat -> nat := (i: nat) => F(i, j);
    var z, q := zs[j], Quotients(f, p, xs[j], MAX_POLY);
    forall i: nat | i < MAX_POLY ensures col(i) == Mul(f, z, EvalTerm(f, q, x)(i)) {
      assert C(q, i) == Quotient(f, p, xs[j], i);
      assert QuotientShare(f, p, xs, zs, i)(j) == Mul(f, z, C(q, i));
      assert F(i, j) == Mul(f, XPow(f, x, i), QuotientShare(f, p, xs, zs, i)(j));
      MulComm(f, XPow(f, x, i), Mul(f, z, C(q, i)));
      MulAssoc(f, z, C(q, i), XPow(f, x, i));
    }
    SumScale(f, MAX_POLY, z, EvalTerm(f, q, x), col);
    SumExt(MAX_POLY, col, ColOf(F, j));
  }

  lemma WideColumns(f: Gf, p: seq<nat>, xs: seq<nat>, zs: seq<nat>, x: nat, F: (nat, nat) -> nat)
    requires |xs| == |zs| && F == WideTerm(f, p, xs, zs, x)
    ensures forall j: nat :: j < |xs| ==> EvalShare(f, p, xs, zs, x)(j) == Sum(MAX_POLY, ColOf(F, j))
  {
    forall j: nat | j < |xs| ensures EvalShare(f, p, xs, zs, x)(j) == Sum(MAX_POLY, ColOf(F, j)) {
      WideColumn(f, p, xs, zs, x, j, F);
    }
  }

  lemma EvaluatorEval(f: Gf, w: seq<nat>, p: seq<nat>, xs: seq<nat>, zs: seq<nat>, x: nat)
    requires IsEvaluator(f, w, p, xs, zs)
    ensures Eval(f, w, x, MAX_POLY) == Sum(|xs|, EvalShare(f, p, xs, zs, x))
  {
    hide *;
    var F := WideTerm(f, p, xs, zs, x);
    EvaluatorShape(f, w, p, xs, zs, x);
    WideRows(f, w, p, xs, zs, x, F);
    WideColumns(f, p, xs, zs, x, F);
    SumSwap(MAX_POLY, |xs|, F, EvalTerm(f, w, x), EvalShare(f, p, xs, zs, x));
  }

  lemma EvaluatorShape(f: Gf, w: seq<nat>, p: seq<nat>, xs: seq<nat>, zs: seq<nat>, x: nat)
    requires IsEvaluator(f, w, p, xs, zs)
    ensures 0 <= MAX_POLY && |xs| == |zs| && Eval(f, w, x, MAX_POLY) == Sum(MAX_POLY, EvalTerm(f, w, x))
  {
  }

  // ---- at the inverse of a locator --------------------------------------------------------------------------

  /** p is the locator polynomial of xs: degree |xs|, constant term 1, roots exactly the inverses. */
  ghost predicate Locates(f: Gf, p: seq<nat>, xs: seq<nat>) {
    Connection(f, p, |xs|) && Units(f, xs) && Distinct(xs) && |xs| < MAX_POLY && Roots(f, p, |xs|, xs)
  }

  /** Exact division: beyond degree |xs| - 1 the quotients are zero. */
  lemma QuotientDegree(f: Gf, p: seq<nat>, xs: seq<nat>, e: nat, n: nat)
    requires Locates(f, p, xs) && e < |xs| && n >= |xs|
    ensures Quotient(f, p, xs[e], n) == 0
  {
    hide Xor, Mul, IsField, Eval, Inv;
    assert Eval(f, p, Inv(f, xs[e]), |xs| + 1) == 0;
    DivisionExact(f, p, xs[e], |xs|, n);
  }

  /** The wide quotient evaluates like the exact one. */
  lemma WideIsExact(f: Gf, p: seq<nat>, xs: seq<nat>, e: nat, x: nat)
    requires Locates(f, p, xs) && e < |xs|
    ensures Eval(f, Quotients(f, p, xs[e], MAX_POLY), x, MAX_POLY) == Eval(f, Quotients(f, p, xs[e], |xs|), x, |xs|)
  {
    hide Xor, Mul, IsField, Inv, Quotient;
    var t := |xs|;
    var wide, exact := Quotients(f, p, xs[e], MAX_POLY), Quotients(f, p, xs[e], t);
    forall i: int | i > t - 1 ensures C(wide, i) == 0 {
      if i < MAX_POLY {
        QuotientDegree(f, p, xs, e, i);
      }
    }
    EvalExtend(f, wide, x, t, MAX_POLY);
    SumExt(t, EvalTerm(f, wide, x), EvalTerm(f, exact, x));
  }

  /** The quotient by another locator vanishes here. */
  lemma OtherQuotient(f: Gf, p: seq<nat>, xs: seq<nat>, e: nat, k: nat)
    requires Locates(f, p, xs) && e < |xs| && k < |xs| && e != k
    ensures Eval(f, Quotients(f, p, xs[e], |xs|), Inv(f, xs[k]), |xs|) == 0
  {
    hide Xor, Mul, IsField, Eval, Inv, Quotients;
    var q, x := Quotients(f, p, xs[e], |xs|), Inv(f, xs[k]);
    assert Eval(f, p, Inv(f, xs[e]), |xs| + 1) == 0 && Eval(f, p, x, |xs| + 1) == 0;
    FactorEval(f, p, xs[e], |xs|, x);
    assert xs[e] != xs[k];
    OneMinusNonzero(f, xs[e], xs[k]);
    EvalInField(f, q, x, |xs|);
    MulNonzero(f, Xor(1, Mul(f, xs[e], x)), Eval(f, q, x, |xs|));
  }

  /** The quotient by this very locator does not: the root is simple. */
  lemma OwnQuotient(f: Gf, p: seq<nat>, xs: seq<nat>, k: nat)
    requires Locates(f, p, xs) && k < |xs|
    ensures Eval(f, Quotients(f, p, xs[k], |xs|), Inv(f, xs[k]), |xs|) != 0
  {
    hide Xor, Mul, IsField, Eval, Inv, Quotient;
    var t := |xs|;
    var q := Quotients(f, p, xs[k], t);
    if Eval(f, q, Inv(f, xs[k]), t) == 0 {
      forall i | 0 <= i < t ensures Eval(f, q, Inv(f, xs[i]), t) == 0 {
        if i != k {
          OtherQuotient(f, p, xs, k, i);
        }
      }
      assert InFieldAll(f, q) by {
        forall i | 0 <= i < t ensures q[i] < f.size {
          QuotientInField(f, p, xs[k], i);
        }
      }
      assert q[0] == Quotient(f, p, xs[k], 0) == 1 by {
        FirstQuotient(f, p, xs[k]);
      }
      assert Roots(f, q, t - 1, xs);
      RootCount(f, q, t - 1, xs);
    }
  }

  lemma FirstQuotient(f: Gf, p: seq<nat>, a: nat)
    ensures Quotient(f, p, a, 0) == C(p, 0)
  {
  }

  /** The evaluator at 1/xs[k] keeps only error k. */
  lemma EvaluatorAt(f: Gf, w: seq<nat>, p: seq<nat>, xs: seq<nat>, zs: seq<nat>, k: nat)
    requires IsEvaluator(f, w, p, xs, zs) && Locates(f, p, xs) && k < |xs|
    ensures var x := Inv(f, xs[k]);
      Eval(f, w, x, MAX_POLY) == Mul(f, zs[k], Eval(f, Quotients(f, p, xs[k], |xs|), x, |xs|))
  {
    hide Xor, Mul, IsField, Eval, Inv, Quotients;
    var x, t := Inv(f, xs[k]), |xs|;
    EvaluatorEval(f, w, p, xs, zs, x);
    var g := EvalShare(f, p, xs, zs, x);
    forall e: nat | e < t && e != k ensures g(e) == 0 {
      WideIsExact(f, p, xs, e, x);
      OtherQuotient(f, p, xs, e, k);
      MulZero(f, zs[e]);
    }
    SumSingle(t, k, g);
    WideIsExact(f, p, xs, k, x);
  }

  // ---- the formal derivative ----------------------------------------------------------------------------------

  /** In characteristic two only the odd coefficients survive, moved down by one. */
  ghost predicate IsDerivative(d: seq<nat>, p: seq<nat>) {
    |d| == |p| == MAX_POLY
    && forall i :: 0 <= i < MAX_POLY ==> d[i] == if i % 2 == 0 then p[i + 1] else 0
  }

  /** Two terms of the derivative at x = 1/a are a times two terms of the quotient. */
  lemma DerivativePair(f: Gf, p1: nat, q0: nat, q1: nat, a: nat, x: nat, w: nat)
    requires Mul(f, a, x) == 1 && q1 == Xor(p1, Mul(f, a, q0)) && w < f.size && q1 < f.size
    ensures Mul(f, p1, w) == Mul(f, a, Xor(Mul(f, q0, w), Mul(f, q1, Mul(f, x, w))))
  {
    hide Xor, Mul, IsField;
    XorCancel(p1, Mul(f, a, q0));
    MulDistribRight(f, q1, Mul(f, a, q0), w);
    MulAssoc(f, a, q0, w);
    // a (q1 (x w)) is q1 w
    MulAssoc(f, q1, x, w);
    MulComm(f, q1, x);
    MulAssoc(f, x, q1, w);
    MulAssoc(f, a, x, Mul(f, q1, w));
    MulOne(f, Mul(f, q1, w));
    MulDistrib(f, a, Mul(f, q0, w), Mul(f, q1, Mul(f, x, w)));
    XorComm(Mul(f, q1, w), Mul(f, a, Mul(f, q0, w)));
  }

  lemma EvalTwoMore(f: Gf, p: seq<nat>, x: nat, i: nat)
    ensures Eval(f, p, x, i + 2)
         == Xor(Xor(Eval(f, p, x, i), Mul(f, C(p, i), XPow(f, x, i))), Mul(f, C(p, i + 1), Mul(f, x, XPow(f, x, i))))
  {
    hide Xor, Mul, IsField;
    assert Eval(f, p, x, i + 1) == Xor(Eval(f, p, x, i), EvalTerm(f, p, x)(i));
    assert Eval(f, p, x, i + 2) == Xor(Eval(f, p, x, i + 1), EvalTerm(f, p, x)(i + 1));
  }

  lemma {:induction false} DerivativeEval(f: Gf, d: seq<nat>, p: seq<nat>, a: nat, x: nat, q: seq<nat>, h: nat)
    requires IsDerivative(d, p) && Mul(f, a, x) == 1 && InFieldAll(f, p)
    requires q == Quotients(f, p, a, MAX_POLY) && 2 * h <= MAX_POLY
    ensures Eval(f, d, x, 2 * h) == Mul(f, a, Eval(f, q, x, 2 * h))
  {
    hide Xor, Mul, IsField, Quotients, XPow;
    if h == 0 {
      MulZero(f, a);
    } else {
      var i := 2 * h - 2;
      DerivativeEval(f, d, p, a, x, q, h - 1);
      var w := XPow(f, x, i);
      var t0, t1 := Mul(f, q[i], w), Mul(f, q[i + 1], Mul(f, x, w));
      var E, D := Eval(f, q, x, i), Eval(f, d, x, i);
      QuotientInField(f, p, a, i + 1);
      DerivativePair(f, p[i + 1], q[i], q[i + 1], a, x, w);
      hide Eval;
      EvalTwoMore(f, q, x, i);
      MulZero(f, Mul(f, x, w));
      EvalTwoMore(f, d, x, i);
      XorZero(Xor(D, Mul(f, p[i + 1], w)));
      XorAssoc(E, t0, t1);
      MulDistrib(f, a, E, Xor(t0, t1));
    }
  }

  /** Forney: evaluator over derivative, at 1/xs[k], is the magnitude ys[k]; neither vanishes. */
  lemma Magnitude(f: Gf, w: seq<nat>, d: seq<nat>, p: seq<nat>, xs: seq<nat>, ys: seq<nat>, k: nat)
    requires |xs| == |ys| && IsEvaluator(f, w, p, xs, Scaled(f, xs, ys)) && Locates(f, p, xs)
    requires IsDerivative(d, p) && Units(f, ys) && k < |xs|
    ensures var x := Inv(f, xs[k]);
      var om, sd := Eval(f, w, x, MAX_POLY), Eval(f, d, x, MAX_POLY);
      0 < om < f.size && 0 < sd < f.size && Mul(f, om, Inv(f, sd)) == ys[k]
  {
    hide Xor, Mul, IsField, Eval, Inv, Quotients, Locates, IsEvaluator;
    LocatesFacts(f, p, xs, k);
    var t, x, a, y := |xs|, Inv(f, xs[k]), xs[k], ys[k];
    var E := Eval(f, Quotients(f, p, a, t), x, t);
    EvaluatorAt(f, w, p, xs, Scaled(f, xs, ys), k);
    MulInv(f, a);
    DerivativeEval(f, d, p, a, x, Quotients(f, p, a, MAX_POLY), MAX_POLY / 2);
    WideIsExact(f, p, xs, k, x);
    OwnQuotient(f, p, xs, k);
    EvalInField(f, Quotients(f, p, a, t), x, t);
    var sd := Mul(f, a, E);
    MulNonzero(f, a, E);
    MulAssoc(f, y, a, E);
    MulNonzero(f, y, sd);
    MulAssoc(f, y, sd, Inv(f, sd));
    MulInv(f, sd);
    MulOne(f, y);
  }

  lemma LocatesFacts(f: Gf, p: seq<nat>, xs: seq<nat>, k: nat)
    requires Locates(f, p, xs) && k < |xs|
    ensures InFieldAll(f, p) && 0 < xs[k] < f.size
  {
  }
}
