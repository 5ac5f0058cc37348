/** A shortest recurrence for the syndromes of t errors, 2 t <= N, has length t and its roots are the
    inverses of the error locators. */
module ErrorLocation {
  import opened Bits
  import opened Galois
  import opened Sums
  import opened Polynomials
  import opened Recurrences
  import opened ErrorTheory
  import opened BerlekampMassey

  // ---- the locator polynomial -------------------------------------------------------------------------

  function TimesAt(f: Gf, p: seq<nat>, a: nat, i: int): nat {
    Xor(C(p, i), Mul(f, a, C(p, i - 1)))
  }

  /** (1 + a z) p(z). */
  function Times(f: Gf, p: seq<nat>, a: nat): (r: seq<nat>)
    ensures |r| == |p| + 1 && forall i :: 0 <= i < |r| ==> r[i] == TimesAt(f, p, a, i)
  {
    seq(|p| + 1, i requires 0 <= i <= |p| => TimesAt(f, p, a, i))
  }

  /** (1 + xs[0] z) (1 + xs[1] z) ... */
  function Locator(f: Gf, xs: seq<nat>): (r: seq<nat>)
    ensures |r| == |xs| + 1
  {
    if xs == [] then [1] else Times(f, Locator(f, xs[1..]), xs[0])
  }

  lemma {:induction false} TimesQuotient(f: Gf, p: seq<nat>, a: nat, i: nat)
    requires i <= |p|
    ensures Quotient(f, Times(f, p, a), a, i) == C(p, i)
  {
    hide Xor, Mul, IsField, Times;
    var r := Times(f, p, a);
    assert C(r, i) == TimesAt(f, p, a, i);
    if i == 0 {
      MulZero(f, a);
      XorZero(C(p, 0));
    } else {
      TimesQuotient(f, p, a, i - 1);
      XorCancel(C(p, i), Mul(f, a, C(p, i - 1)));
    }
  }

  lemma TimesInField(f: Gf, p: seq<nat>, a: nat)
    requires InFieldAll(f, p)
    ensures InFieldAll(f, Times(f, p, a))
  {
    hide Xor, Mul, IsField;
    forall i | 0 <= i < |p| + 1 ensures Times(f, p, a)[i] < f.size {
      FieldPositive(f);
      AddInField(f, C(p, i), Mul(f, a, C(p, i - 1)));
    }
  }

  lemma FieldPositive(f: Gf)
    ensures f.size > 1
  {
  }

  /** A zero on top changes no value. */
  lemma PaddedEval(f: Gf, p: seq<nat>, x: nat)
    ensures Eval(f, p + [0], x, |p| + 1) == Eval(f, p, x, |p|)
  {
    hide Xor, Mul, IsField;
    var q, n := p + [0], |p|;
    EvalExtend(f, q, x, n, n + 1);
    SumExt(n, EvalTerm(f, p, x), EvalTerm(f, q, x));
  }

  lemma TimesEval(f: Gf, p: seq<nat>, a: nat, x: nat)
    requires InFieldAll(f, p) && |p| > 0
    ensures Eval(f, Times(f, p, a), x, |p| + 1) == Mul(f, Xor(1, Mul(f, a, x)), Eval(f, p, x, |p|))
  {
    hide Xor, Mul, IsField, Eval, Quotient, XPow;
    var r, n := Times(f, p, a), |p|;
    TimesInField(f, p, a);
    var q := p + [0];
    forall i | 0 <= i < |q| ensures q[i] == Quotient(f, r, a, i) {
      TimesQuotient(f, p, a, i);
    }
    hide Times;
    DivisionStep(f, r, a, x, q, n + 1);
    MulZero(f, a);
    MulZero(f, XPow(f, x, n + 1));
    PaddedEval(f, p, x);
    var E := Eval(f, p, x, n);
    XorZero(Xor(E, Mul(f, Mul(f, a, x), E)));
    EvalInField(f, p, x, n);
    MulDistribRight(f, 1, Mul(f, a, x), E);
    MulOne(f, E);
  }

  lemma {:induction false} LocatorShape(f: Gf, xs: seq<nat>)
    ensures InFieldAll(f, Locator(f, xs)) && Connection(f, Locator(f, xs), |xs|)
  {
    hide Xor, Mul, IsField;
    FieldPositive(f);
    if xs != [] {
      var p := Locator(f, xs[1..]);
      LocatorShape(f, xs[1..]);
      TimesInField(f, p, xs[0]);
      var zero: int := 0;
      assert Locator(f, xs)[zero] == TimesAt(f, p, xs[0], zero);
      MulZero(f, xs[0]);
      XorZero(1);
    }
  }

  lemma {:induction false} LocatorRoot(f: Gf, xs: seq<nat>, e: nat)
    requires Units(f, xs) && e < |xs|
    ensures Eval(f, Locator(f, xs), Inv(f, xs[e]), |xs| + 1) == 0
  {
    hide Xor, Mul, IsField, Inv, Eval;
    var p, a := Locator(f, xs[1..]), xs[0];
    var x := Inv(f, xs[e]);
    LocatorShape(f, xs[1..]);
    TimesEval(f, p, a, x);
    if e == 0 {
      MulInv(f, a);
      XorSelf(1);
      MulZero(f, Eval(f, p, x, |xs|));
    } else {
      LocatorRoot(f, xs[1..], e - 1);
      MulZero(f, Xor(1, Mul(f, a, x)));
    }
  }

  /** The locator polynomial is a recurrence of length t for the power sums. */
  lemma LocatorGenerates(f: Gf, s: seq<nat>, xs: seq<nat>, ys: seq<nat>, N: nat)
    requires IsPowerSums(f, s, xs, ys, N) && Units(f, xs)
    ensures Generates(f, Locator(f, xs), s, |xs|, N)
  {
    hide Xor, Mul, IsField, Locator, Eval, Conv;
    LocatorShape(f, xs);
    forall k: nat | |xs| <= k < N ensures Conv(f, Locator(f, xs), s, k) == 0 {
      LocatorPredicts(f, s, xs, ys, N, k);
    }
  }

  lemma LocatorPredicts(f: Gf, s: seq<nat>, xs: seq<nat>, ys: seq<nat>, N: nat, k: nat)
    requires IsPowerSums(f, s, xs, ys, N) && Units(f, xs) && |xs| <= k < N
    ensures Conv(f, Locator(f, xs), s, k) == 0
  {
    hide Xor, Mul, IsField, Locator, Eval, Conv;
    var p, t := Locator(f, xs), |xs|;
    LocatorShape(f, xs);
    ConvPower(f, p, t, s, xs, ys, N, k);
    forall e: nat | e < t ensures Share(f, p, t, xs, ys, k)(e) == 0 {
      LocatorRoot(f, xs, e);
      MulZero(f, Mul(f, ys[e], XPow(f, xs[e], k)));
    }
    SumZero(t, Share(f, p, t, xs, ys, k));
  }

  // ---- a shortest recurrence is the locator -------------------------------------------------------------

  /** ys[e] xs[e]^L p(1/xs[e]). */
  function Weights(f: Gf, p: seq<nat>, L: nat, xs: seq<nat>, ys: seq<nat>): (ws: seq<nat>)
    requires |xs| == |ys| && Units(f, xs)
    ensures |ws| == |xs|
    ensures forall e :: 0 <= e < |xs| ==>
      ws[e] == Mul(f, Mul(f, ys[e], XPow(f, xs[e], L)), Eval(f, p, Inv(f, xs[e]), L + 1))
  {
    seq(|xs|, e requires 0 <= e < |xs| =>
      Mul(f, Mul(f, ys[e], XPow(f, xs[e], L)), Eval(f, p, Inv(f, xs[e]), L + 1)))
  }

  lemma ShareShift(f: Gf, y: nat, x: nat, v: nat, L: nat, j: nat)
    ensures Mul(f, Mul(f, Mul(f, y, XPow(f, x, L)), v), XPow(f, x, j)) == Mul(f, Mul(f, y, XPow(f, x, L + j)), v)
  {
    hide Mul;
    var a, b := XPow(f, x, L), XPow(f, x, j);
    XPowAdd(f, x, L, j);
    var ya := Mul(f, y, a);
    MulAssoc(f, ya, v, b);
    MulComm(f, v, b);
    MulAssoc(f, ya, b, v);
    MulAssoc(f, y, a, b);
  }

  /** Power sums of the weights are the convolutions from L on. */
  lemma WeightSums(f: Gf, p: seq<nat>, L: nat, s: seq<nat>, xs: seq<nat>, ys: seq<nat>, N: nat, j: nat)
    requires IsPowerSums(f, s, xs, ys, N) && Units(f, xs)
    requires DegreeAtMost(p, L) && L + j < N
    ensures PowerSum(f, xs, Weights(f, p, L, xs, ys), j) == Conv(f, p, s, L + j)
  {
    hide Xor, Mul, IsField, Eval, Conv, XPow;
    var ws := Weights(f, p, L, xs, ys);
    ConvPower(f, p, L, s, xs, ys, N, L + j);
    forall e: nat | e < |xs| ensures PowerTerm(f, xs, ws, j)(e) == Share(f, p, L, xs, ys, L + j)(e) {
      ShareShift(f, ys[e], xs[e], Eval(f, p, Inv(f, xs[e]), L + 1), L, j);
    }
    SumExt(|xs|, PowerTerm(f, xs, ws, j), Share(f, p, L, xs, ys, L + j));
  }

  /** Every 1/xs[e] is a root of a recurrence short enough for the N terms. */
  lemma LocatorsAreRoots(f: Gf, p: seq<nat>, L: nat, s: seq<nat>, xs: seq<nat>, ys: seq<nat>, N: nat)
    requires IsPowerSums(f, s, xs, ys, N) && Units(f, xs) && Distinct(xs) && Units(f, ys)
    requires DegreeAtMost(p, L) && Generates(f, p, s, L, N) && L + |xs| <= N
    ensures Roots(f, p, L, xs)
  {
    hide Xor, Mul, IsField, Eval, Conv, XPow, Inv;
    var ws := Weights(f, p, L, xs, ys);
    forall j: nat | j < |xs| ensures PowerSum(f, xs, ws, j) == 0 {
      WeightSums(f, p, L, s, xs, ys, N, j);
      assert Conv(f, p, s, L + j) == 0;
    }
    assert InFieldAll(f, ws);
    Vandermonde(f, xs, ws, |xs|);
    forall e | 0 <= e < |xs| ensures Eval(f, p, Inv(f, xs[e]), L + 1) == 0 {
      RootFromWeight(f, ys[e], xs[e], p, L);
      assert ws[e] == 0;
    }
  }

  lemma RootFromWeight(f: Gf, y: nat, x: nat, p: seq<nat>, L: nat)
    requires 0 < y < f.size && 0 < x < f.size
    requires Mul(f, Mul(f, y, XPow(f, x, L)), Eval(f, p, Inv(f, x), L + 1)) == 0
    ensures Eval(f, p, Inv(f, x), L + 1) == 0
  {
    hide Xor, Mul, IsField, Eval, Inv;
    XPowNonzero(f, x, L);
    MulNonzero(f, y, XPow(f, x, L));
    EvalInField(f, p, Inv(f, x), L + 1);
    MulNonzero(f, Mul(f, y, XPow(f, x, L)), Eval(f, p, Inv(f, x), L + 1));
  }

  /** With at most N / 2 errors the shortest recurrence has exactly the locators' length and roots. */
  lemma ShortestLocates(f: Gf, p: seq<nat>, L: nat, s: seq<nat>, xs: seq<nat>, ys: seq<nat>, N: nat)
    requires IsPowerSums(f, s, xs, ys, N) && Units(f, xs) && Distinct(xs) && Units(f, ys) && 2 * |xs| <= N
    requires Shortest(f, p, L, s, N)
    ensures L == |xs| && Roots(f, p, L, xs)
  {
    LocatorShape(f, xs);
    LocatorGenerates(f, s, xs, ys, N);
    assert L <= |xs|;
    LocatorsAreRoots(f, p, L, s, xs, ys, N);
    RootCount(f, p, L, xs);
  }

  /** And no other unit is the inverse of a root. */
  lemma OnlyLocators(f: Gf, p: seq<nat>, xs: seq<nat>, a: nat)
    requires Connection(f, p, |xs|) && Units(f, xs) && Distinct(xs) && Roots(f, p, |xs|, xs)
    requires 0 < a < f.size && Eval(f, p, Inv(f, a), |xs| + 1) == 0
    ensures a in xs
  {
    if a !in xs {
      var more := xs + [a];
      hide Xor, Mul, IsField, Eval, Inv;
      assert Units(f, more) && Distinct(more);
      assert Roots(f, p, |xs|, more);
      RootCount(f, p, |xs|, more);
    }
  }
}
