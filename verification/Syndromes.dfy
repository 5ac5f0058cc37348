/** Blocks, their syndromes, and how the syndromes of a damaged block see only the damage. */
module Syndromes {
  import opened Bits
  import opened Galois
  import opened Sums
  import opened Polynomials
  import opened ErrorTheory

  function SyndromeTerm(f: Gf, block: seq<nat>, i: nat): nat -> nat {
    (j: nat) => Mul(f, C(block, |block| - 1 - j), Pow(f, i * j))
  }

  /** The block, last byte as constant term, evaluated at the i-th power of the generator. */
  function Syndrome(f: Gf, block: seq<nat>, i: nat): nat {
    Sum(|block|, SyndromeTerm(f, block, i))
  }

  ghost predicate Codeword(f: Gf, block: seq<nat>, npar: nat) {
    forall i: nat :: i < npar ==> Syndrome(f, block, i) == 0
  }

  // ---- differences between two blocks -----------------------------------------------------------------------

  /** The exponents j < n, ascending, whose bytes (counted from the end) differ. */
  function Wrong(c: seq<nat>, r: seq<nat>, n: nat): (w: seq<nat>)
    requires n <= |c| == |r|
    ensures |w| <= n
    ensures forall k :: 0 <= k < |w| ==> w[k] < n
  {
    if n == 0 then []
    else Wrong(c, r, n - 1) + if c[|c| - n] != r[|c| - n] then [n - 1] else []
  }

  /** The number of differing bytes. */
  function Distance(c: seq<nat>, r: seq<nat>): nat
    requires |c| == |r|
  {
    |Wrong(c, r, |c|)|
  }

  lemma {:induction false} WrongMembers(c: seq<nat>, r: seq<nat>, n: nat, j: nat)
    requires n <= |c| == |r|
    ensures j in Wrong(c, r, n) <==> j < n && c[|c| - 1 - j] != r[|c| - 1 - j]
  {
    if n > 0 {
      WrongMembers(c, r, n - 1, j);
    }
  }

  lemma {:induction false} WrongDistinct(c: seq<nat>, r: seq<nat>, n: nat)
    requires n <= |c| == |r|
    ensures Distinct(Wrong(c, r, n))
  {
    if n > 0 {
      WrongDistinct(c, r, n - 1);
    }
  }

  /** Error locators. */
  function Locators(f: Gf, c: seq<nat>, r: seq<nat>, n: nat): (xs: seq<nat>)
    requires n <= |c| == |r|
    ensures |xs| == |Wrong(c, r, n)|
    ensures forall k :: 0 <= k < |xs| ==> xs[k] == Pow(f, Wrong(c, r, n)[k])
  {
    var w := Wrong(c, r, n);
    seq(|w|, k requires 0 <= k < |w| => Pow(f, w[k]))
  }

  /** Error magnitudes. */
  function Magnitudes(c: seq<nat>, r: seq<nat>, n: nat): (ys: seq<nat>)
    requires n <= |c| == |r|
    ensures |ys| == |Wrong(c, r, n)|
    ensures forall k :: 0 <= k < |ys| ==>
      var j := Wrong(c, r, n)[k]; ys[k] == Xor(c[|c| - 1 - j], r[|c| - 1 - j])
  {
    var w := Wrong(c, r, n);
    seq(|w|, k requires 0 <= k < |w| => Xor(c[|c| - 1 - w[k]], r[|c| - 1 - w[k]]))
  }

  lemma LocatorsAreUnits(f: Gf, c: seq<nat>, r: seq<nat>)
    requires |c| == |r| <= f.p && InFieldAll(f, c) && InFieldAll(f, r)
    ensures Units(f, Locators(f, c, r, |c|)) && Distinct(Locators(f, c, r, |c|)) && Units(f, Magnitudes(c, r, |c|))
  {
    hide Xor, IsField, Wrong;
    var w, xs, ys := Wrong(c, r, |c|), Locators(f, c, r, |c|), Magnitudes(c, r, |c|);
    WrongDistinct(c, r, |c|);
    forall k, l | 0 <= k < l < |xs| ensures xs[k] != xs[l] {
      if xs[k] == xs[l] {
        PowEq(f, w[k], w[l]);
      }
    }
    forall k | 0 <= k < |ys| ensures 0 < ys[k] < f.size {
      var j := w[k];
      WrongMembers(c, r, |c|, j);
      XorEq(c[|c| - 1 - j], r[|c| - 1 - j]);
      AddInField(f, c[|c| - 1 - j], r[|c| - 1 - j]);
    }
  }

  lemma MagnitudeTerm(f: Gf, a: nat, b: nat, x: nat, j: nat, i: nat)
    requires x == Pow(f, j)
    ensures Mul(f, b, Pow(f, i * j)) == Xor(Mul(f, a, Pow(f, i * j)), Mul(f, Xor(a, b), XPow(f, x, i)))
  {
    hide Xor, Mul, Pow, IsField;
    XPowPow(f, j, i);
    assert i * j == j * i;
    var w := Pow(f, i * j);
    MulDistribRight(f, a, b, w);
    XorCancel(Mul(f, b, w), Mul(f, a, w));
    XorComm(Mul(f, b, w), Mul(f, a, w));
  }

  /** Restricted to the last n bytes: syndrome of r = syndrome of c ^ power sum of the errors. */
  lemma {:induction false} SyndromeSplit(f: Gf, c: seq<nat>, r: seq<nat>, i: nat, n: nat)
    requires n <= |c| == |r|
    ensures Sum(n, SyndromeTerm(f, r, i))
         == Xor(Sum(n, SyndromeTerm(f, c, i)), PowerSum(f, Locators(f, c, r, n), Magnitudes(c, r, n), i))
  {
    hide Xor, Mul, Pow, IsField, XPow;
    if n == 0 {
      XorZero(0);
    } else {
      var m, j := n - 1, |c| - n;
      SyndromeSplit(f, c, r, i, m);
      var a, b := SyndromeTerm(f, c, i)(m), SyndromeTerm(f, r, i)(m);
      assert a == Mul(f, c[j], Pow(f, i * m)) && b == Mul(f, r[j], Pow(f, i * m));
      var A := Sum(m, SyndromeTerm(f, c, i));
      var P := PowerSum(f, Locators(f, c, r, m), Magnitudes(c, r, m), i);
      if c[j] == r[j] {
        SameErrors(f, c, r, n, i);
        AddAtEnd(A, P, a, 0);
        XorZero(P);
        XorZero(a);
      } else {
        OneMoreError(f, c, r, n, i);
        var t := Mul(f, Xor(c[j], r[j]), XPow(f, Pow(f, m), i));
        MagnitudeTerm(f, c[j], r[j], Pow(f, m), m, i);
        AddAtEnd(A, P, a, t);
      }
    }
  }

  lemma AddAtEnd(A: nat, P: nat, a: nat, t: nat)
    ensures Xor(Xor(A, P), Xor(a, t)) == Xor(Xor(A, a), Xor(P, t))
  {
    XorSwap(A, P, a, t);
  }

  lemma SameErrors(f: Gf, c: seq<nat>, r: seq<nat>, n: nat, i: nat)
    requires 0 < n <= |c| == |r| && c[|c| - n] == r[|c| - n]
    ensures PowerSum(f, Locators(f, c, r, n), Magnitudes(c, r, n), i)
         == PowerSum(f, Locators(f, c, r, n - 1), Magnitudes(c, r, n - 1), i)
  {
    assert Wrong(c, r, n) == Wrong(c, r, n - 1);
    assert Locators(f, c, r, n) == Locators(f, c, r, n - 1);
    assert Magnitudes(c, r, n) == Magnitudes(c, r, n - 1);
  }

  lemma OneMoreError(f: Gf, c: seq<nat>, r: seq<nat>, n: nat, i: nat)
    requires 0 < n <= |c| == |r| && c[|c| - n] != r[|c| - n]
    ensures PowerSum(f, Locators(f, c, r, n), Magnitudes(c, r, n), i)
         == Xor(PowerSum(f, Locators(f, c, r, n - 1), Magnitudes(c, r, n - 1), i),
                Mul(f, Xor(c[|c| - n], r[|c| - n]), XPow(f, Pow(f, n - 1), i)))
  {
    hide Xor, Mul, Pow, IsField, XPow;
    var xs, ys := Locators(f, c, r, n), Magnitudes(c, r, n);
    var xs', ys' := Locators(f, c, r, n - 1), Magnitudes(c, r, n - 1);
    var w, w' := Wrong(c, r, n), Wrong(c, r, n - 1);
    var t := |w'|;
    assert w == w' + [n - 1];
    assert w[t] == n - 1;
    assert xs[t] == Pow(f, n - 1) && ys[t] == Xor(c[|c| - n], r[|c| - n]);
    forall e: nat | e < t ensures PowerTerm(f, xs, ys, i)(e) == PowerTerm(f, xs', ys', i)(e) {
      assert w[e] == w'[e];
    }
    SumExt(t, PowerTerm(f, xs, ys, i), PowerTerm(f, xs', ys', i));
  }

  /** The syndromes of a damaged codeword are the power sums of the damage. */
  lemma SyndromesOfErrors(f: Gf, c: seq<nat>, r: seq<nat>, npar: nat, s: seq<nat>)
    requires |c| == |r| && Codeword(f, c, npar)
    requires |s| >= npar && forall i :: 0 <= i < npar ==> s[i] == Syndrome(f, r, i)
    ensures IsPowerSums(f, s, Locators(f, c, r, |c|), Magnitudes(c, r, |c|), npar)
  {
    hide Xor, Mul, Pow, IsField;
    var xs, ys := Locators(f, c, r, |c|), Magnitudes(c, r, |c|);
    forall i: nat | i < npar ensures C(s, i) == PowerSum(f, xs, ys, i) {
      SyndromeSplit(f, c, r, i, |c|);
      assert Syndrome(f, c, i) == 0;
      XorZero(PowerSum(f, xs, ys, i));
    }
  }
}
