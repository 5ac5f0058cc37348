/** Power sums of error locators: why a shortest recurrence for the syndromes locates the errors, and
    why the evaluator quotient gives their magnitudes. */
module ErrorTheory {
  import opened Bits
  import opened Galois
  import opened Sums
  import opened Polynomials
  import opened Recurrences

  function PowerTerm(f: Gf, xs: seq<nat>, ys: seq<nat>, i: nat): nat -> nat {
    (e: nat) => Mul(f, C(ys, e), XPow(f, C(xs, e), i))
  }

  /** ys[0] xs[0]^i ^ ys[1] xs[1]^i ^ ... */
  function PowerSum(f: Gf, xs: seq<nat>, ys: seq<nat>, i: nat): nat {
    Sum(|xs|, PowerTerm(f, xs, ys, i))
  }

  // ---- Vandermonde ---------------------------------------------------------------------------------

  /** Weights ws[e] (xs[e] ^ a), one element shorter. */
  function Damped(f: Gf, xs: seq<nat>, ws: seq<nat>, a: nat): (r: seq<nat>)
    requires |xs| == |ws|
    ensures |r| == |xs| && forall e :: 0 <= e < |r| ==> r[e] == Mul(f, ws[e], Xor(xs[e], a))
  {
    seq(|xs|, e requires 0 <= e < |xs| => Mul(f, ws[e], Xor(xs[e], a)))
  }

  lemma DampedTerm(f: Gf, x: nat, w: nat, a: nat, j: nat)
    ensures Mul(f, Mul(f, w, Xor(x, a)), XPow(f, x, j))
         == Xor(Mul(f, w, XPow(f, x, j + 1)), Mul(f, a, Mul(f, w, XPow(f, x, j))))
  {
    hide Xor, Mul;
    var p := XPow(f, x, j);
    MulAssoc(f, w, Xor(x, a), p);
    MulDistribRight(f, x, a, p);
    MulDistrib(f, w, Mul(f, x, p), Mul(f, a, p));
    MulAssoc(f, w, a, p);
    MulComm(f, w, a);
    MulAssoc(f, a, w, p);
  }

  /** If the first n power sums of distinct units vanish, |xs| <= n, all weights are zero. */
  lemma {:induction false} Vandermonde(f: Gf, xs: seq<nat>, ws: seq<nat>, n: nat)
    requires |xs| == |ws| <= n && Units(f, xs) && Distinct(xs) && InFieldAll(f, ws)
    requires forall j: nat :: j < n ==> PowerSum(f, xs, ws, j) == 0
    ensures forall e :: 0 <= e < |ws| ==> ws[e] == 0
    decreases |xs|
  {
    if |xs| > 0 {
      hide Xor, Mul;
      var k := |xs| - 1;
      var a := xs[k];
      var xs', ws' := xs[..k], Damped(f, xs[..k], ws[..k], a);
      forall j: nat | j < n - 1 ensures PowerSum(f, xs', ws', j) == 0 {
        DampedSum(f, xs, ws, j);
      }
      Vandermonde(f, xs', ws', n - 1);
      forall e | 0 <= e < k ensures ws[e] == 0 {
        XorEq(xs[e], a);
        AddInField(f, xs[e], a);
        assert ws'[e] == 0;
        MulNonzero(f, ws[e], Xor(xs[e], a));
      }
      LastWeight(f, xs, ws);
    }
  }

  /** All damped weights together: the combination of two consecutive power sums. */
  lemma DampedAll(f: Gf, xs: seq<nat>, ws: seq<nat>, a: nat, j: nat)
    requires |xs| == |ws|
    requires PowerSum(f, xs, ws, j) == 0 && PowerSum(f, xs, ws, j + 1) == 0
    ensures PowerSum(f, xs, Damped(f, xs, ws, a), j) == 0
  {
    hide Xor, Mul, IsField;
    var n := |xs|;
    var all := Damped(f, xs, ws, a);
    var g, h := PowerTerm(f, xs, ws, j + 1), PowerTerm(f, xs, ws, j);
    var ah: nat -> nat := (e: nat) => Mul(f, a, h(e));
    forall e: nat | e < n ensures PowerTerm(f, xs, all, j)(e) == Xor(g(e), ah(e)) {
      DampedTerm(f, xs[e], ws[e], a, j);
    }
    hide PowerTerm, XPow;
    SumXor(n, g, ah, PowerTerm(f, xs, all, j));
    SumScale(f, n, a, h, ah);
    MulZero(f, a);
    XorZero(0);
  }

  /** The weight damped by its own locator is zero, so the last term can be dropped. */
  lemma DampedSum(f: Gf, xs: seq<nat>, ws: seq<nat>, j: nat)
    requires |xs| == |ws| > 0
    requires PowerSum(f, xs, ws, j) == 0 && PowerSum(f, xs, ws, j + 1) == 0
    ensures var k := |xs| - 1; PowerSum(f, xs[..k], Damped(f, xs[..k], ws[..k], xs[k]), j) == 0
  {
    hide Xor, Mul, IsField, XPow;
    var k := |xs| - 1;
    var a := xs[k];
    var all, rest := Damped(f, xs, ws, a), Damped(f, xs[..k], ws[..k], a);
    DampedAll(f, xs, ws, a, j);
    XorSelf(a);
    MulZero(f, ws[k]);
    MulZero(f, XPow(f, a, j));
    assert PowerTerm(f, xs, all, j)(k) == 0;
    forall e: nat | e < k ensures PowerTerm(f, xs[..k], rest, j)(e) == PowerTerm(f, xs, all, j)(e) {
      assert rest[e] == all[e];
    }
    SumExt(k, PowerTerm(f, xs[..k], rest, j), PowerTerm(f, xs, all, j));
    XorZero(Sum(k, PowerTerm(f, xs, all, j)));
  }

  lemma LastWeight(f: Gf, xs: seq<nat>, ws: seq<nat>)
    requires |xs| == |ws| > 0 && InFieldAll(f, ws)
    requires forall e :: 0 <= e < |ws| - 1 ==> ws[e] == 0
    requires PowerSum(f, xs, ws, 0) == 0
    ensures ws[|ws| - 1] == 0
  {
    hide Xor, Mul;
    var k := |ws| - 1;
    forall e: nat | e < k + 1 && e != k ensures PowerTerm(f, xs, ws, 0)(e) == 0 {
      MulZero(f, XPow(f, xs[e], 0));
    }
    SumSingle(k + 1, k, PowerTerm(f, xs, ws, 0));
    MulOne(f, ws[k]);
  }

  // ---- convolving with power sums --------------------------------------------------------------------

  /** s[i] is the i-th power sum, for i < N. */
  ghost predicate IsPowerSums(f: Gf, s: seq<nat>, xs: seq<nat>, ys: seq<nat>, N: nat) {
    |xs| == |ys| && forall i: nat :: i < N ==> C(s, i) == PowerSum(f, xs, ys, i)
  }

  lemma {:induction false} PowerBack(f: Gf, x: nat, k: nat, i: nat)
    requires 0 < x < f.size && i <= k
    ensures XPow(f, x, k - i) == Mul(f, XPow(f, x, k), XPow(f, Inv(f, x), i))
    decreases i
  {
    hide Mul, Inv;
    var z := Inv(f, x);
    if i == 0 {
      MulOne(f, XPow(f, x, k));
    } else {
      PowerBack(f, x, k, i - 1);
      var a, b := XPow(f, x, k - i), XPow(f, z, i - 1);
      // x * x^(k-i) == x^k z^(i-1), and multiplying by z cancels the x
      assert XPow(f, x, k - i + 1) == Mul(f, x, a);
      MulInv(f, x);
      MulAssoc(f, z, x, a);
      MulOne(f, a);
      MulAssoc(f, z, XPow(f, x, k), b);
      MulComm(f, z, XPow(f, x, k));
      MulAssoc(f, XPow(f, x, k), z, b);
    }
  }

  /** y x^k p(1/x): the share of one error in a convolution. */
  function Share(f: Gf, p: seq<nat>, d: nat, xs: seq<nat>, ys: seq<nat>, k: nat): nat -> nat
    requires |xs| == |ys| && Units(f, xs)
  {
    (e: nat) => if e < |xs| then Mul(f, Mul(f, ys[e], XPow(f, xs[e], k)), Eval(f, p, Inv(f, xs[e]), d + 1)) else 0
  }

  lemma ShareTerm(f: Gf, c: nat, y: nat, x: nat, k: nat, i: nat)
    requires 0 < x < f.size && i <= k
    ensures Mul(f, c, Mul(f, y, XPow(f, x, k - i)))
         == Mul(f, Mul(f, y, XPow(f, x, k)), Mul(f, c, XPow(f, Inv(f, x), i)))
  {
    hide Mul, Inv;
    PowerBack(f, x, k, i);
    var a, b := XPow(f, x, k), XPow(f, Inv(f, x), i);
    MulAssoc(f, y, a, b);
    var ya := Mul(f, y, a);
    MulAssoc(f, c, ya, b);
    MulComm(f, c, ya);
    MulAssoc(f, ya, c, b);
  }

  /** c y x^(k-i), the contribution of coefficient i and error e. */
  function GridTerm(f: Gf, p: seq<nat>, xs: seq<nat>, ys: seq<nat>, k: nat): (nat, nat) -> nat {
    (i: nat, e: nat) => if i <= k then Mul(f, C(p, i), Mul(f, C(ys, e), XPow(f, C(xs, e), k - i))) else 0
  }

  lemma GridRow(f: Gf, p: seq<nat>, s: seq<nat>, xs: seq<nat>, ys: seq<nat>, N: nat, k: nat, i: nat, F: (nat, nat) -> nat)
    requires IsPowerSums(f, s, xs, ys, N) && i <= k < N && F == GridTerm(f, p, xs, ys, k)
    ensures ConvTerm(f, p, s, k)(i) == Sum(|xs|, RowOf(F, i))
  {
    hide Xor, Mul, IsField, XPow;
    var row: nat -> nat := (e: nat) => F(i, e);
    var m: nat := k - i;
    assert C(s, m) == PowerSum(f, xs, ys, m);
    forall e: nat | e < |xs| ensures row(e) == Mul(f, C(p, i), PowerTerm(f, xs, ys, m)(e)) {
      assert F(i, e) == Mul(f, C(p, i), Mul(f, C(ys, e), XPow(f, C(xs, e), k - i)));
      assert PowerTerm(f, xs, ys, m)(e) == Mul(f, C(ys, e), XPow(f, C(xs, e), m));
    }
    SumScale(f, |xs|, C(p, i), PowerTerm(f, xs, ys, m), row);
    SumExt(|xs|, row, RowOf(F, i));
  }

  lemma GridColumn(f: Gf, p: seq<nat>, d: nat, xs: seq<nat>, ys: seq<nat>, k: nat, j: nat, F: (nat, nat) -> nat)
    requires |xs| == |ys| && Units(f, xs) && d <= k && j < |xs| && F == GridTerm(f, p, xs, ys, k)
    ensures Share(f, p, d, xs, ys, k)(j) == Sum(d + 1, ColOf(F, j))
  {
    hide Xor, Mul, IsField, XPow, Inv;
    var col: nat -> nat := (i: nat) => F(i, j);
    var y, x := ys[j], xs[j];
    var yx, z := Mul(f, y, XPow(f, x, k)), Inv(f, x);
    forall i: nat | i < d + 1 ensures col(i) == Mul(f, yx, EvalTerm(f, p, z)(i)) {
      assert F(i, j) == Mul(f, C(p, i), Mul(f, C(ys, j), XPow(f, C(xs, j), k - i)));
      ShareTerm(f, C(p, i), y, x, k, i);
      assert EvalTerm(f, p, z)(i) == Mul(f, C(p, i), XPow(f, z, i));
    }
    SumScale(f, d + 1, yx, EvalTerm(f, p, z), col);
    SumExt(d + 1, col, ColOf(F, j));
  }

  lemma GridRows(f: Gf, p: seq<nat>, s: seq<nat>, xs: seq<nat>, ys: seq<nat>, N: nat, k: nat, d: nat, F: (nat, nat) -> nat)
    requires IsPowerSums(f, s, xs, ys, N) && d <= k < N && F == GridTerm(f, p, xs, ys, k)
    ensures forall i: nat :: i < d + 1 ==> ConvTerm(f, p, s, k)(i) == Sum(|xs|, RowOf(F, i))
  {
    forall i: nat | i < d + 1 ensures ConvTerm(f, p, s, k)(i) == Sum(|xs|, RowOf(F, i)) {
      GridRow(f, p, s, xs, ys, N, k, i, F);
    }
  }

  /** Convolving the power sums with p sums up, over the errors, y x^k p(1/x). */
  lemma ConvPower(f: Gf, p: seq<nat>, d: nat, s: seq<nat>, xs: seq<nat>, ys: seq<nat>, N: nat, k: nat)
    requires IsPowerSums(f, s, xs, ys, N) && Units(f, xs)
    requires DegreeAtMost(p, d) && d <= k < N
    ensures Conv(f, p, s, k) == Sum(|xs|, Share(f, p, d, xs, ys, k))
  {
    var t := |xs|;
    assert |ys| == t;
    var F := GridTerm(f, p, xs, ys, k);
    hide *;
    ConvNarrow(f, p, s, k, d);
    GridRows(f, p, s, xs, ys, N, k, d, F);
    forall j: nat | j < t ensures Share(f, p, d, xs, ys, k)(j) == Sum(d + 1, ColOf(F, j)) {
      GridColumn(f, p, d, xs, ys, k, j, F);
    }
    SumSwap(d + 1, t, F, ConvTerm(f, p, s, k), Share(f, p, d, xs, ys, k));
  }
}
