/** Finite exclusive-or sums, the additive structure of every field here. */
module Sums {
  import opened Bits
  import opened Galois

  /** g(0) ^ g(1) ^ ... ^ g(n - 1). */
  function Sum(n: nat, g: nat -> nat): nat {
    if n == 0 then 0 else Xor(Sum(n - 1, g), g(n - 1))
  }

  lemma NoTerms(g: nat -> nat)
    ensures Sum(0, g) == 0
  {
  }

  lemma NextTerm(n: nat, g: nat -> nat)
    ensures Sum(n + 1, g) == Xor(Sum(n, g), g(n))
  {
  }

  lemma {:induction false} SumExt(n: nat, g: nat -> nat, h: nat -> nat)
    requires forall i: nat :: i < n ==> g(i) == h(i)
    ensures Sum(n, g) == Sum(n, h)
  {
    if n > 0 {
      SumExt(n - 1, g, h);
    }
  }

  lemma {:induction false} SumZero(n: nat, g: nat -> nat)
    requires forall i: nat :: i < n ==> g(i) == 0
    ensures Sum(n, g) == 0
  {
    if n > 0 {
      SumZero(n - 1, g);
      XorZero(0);
    }
  }

  lemma {:induction false} SumXor(n: nat, g: nat -> nat, h: nat -> nat, k: nat -> nat)
    requires forall i: nat :: i < n ==> k(i) == Xor(g(i), h(i))
    ensures Sum(n, k) == Xor(Sum(n, g), Sum(n, h))
  {
    hide Xor;
    if n == 0 {
      XorZero(0);
    } else {
      SumXor(n - 1, g, h, k);
      XorSwap(Sum(n - 1, g), Sum(n - 1, h), g(n - 1), h(n - 1));
    }
  }

  lemma {:induction false} SumScale(f: Gf, n: nat, c: nat, g: nat -> nat, k: nat -> nat)
    requires forall i: nat :: i < n ==> k(i) == Mul(f, c, g(i))
    ensures Sum(n, k) == Mul(f, c, Sum(n, g))
  {
    hide Xor, Mul;
    if n == 0 {
      MulZero(f, c);
    } else {
      SumScale(f, n - 1, c, g, k);
      MulDistrib(f, c, Sum(n - 1, g), g(n - 1));
    }
  }

  lemma {:induction false} SumSplit(m: nat, n: nat, g: nat -> nat, h: nat -> nat)
    requires forall i: nat :: i < n ==> h(i) == g(m + i)
    ensures Sum(m + n, g) == Xor(Sum(m, g), Sum(n, h))
  {
    hide Xor;
    if n == 0 {
      XorZero(Sum(m, g));
    } else {
      SumSplit(m, n - 1, g, h);
      XorAssoc(Sum(m, g), Sum(n - 1, h), h(n - 1));
    }
  }

  /** Trailing zero terms do not matter. */
  lemma {:induction false} SumExtend(m: nat, n: nat, g: nat -> nat)
    requires m <= n && forall i: nat :: m <= i < n ==> g(i) == 0
    ensures Sum(n, g) == Sum(m, g)
    decreases n
  {
    hide Xor;
    if m < n {
      SumExtend(m, n - 1, g);
      XorZero(Sum(m, g));
    }
  }

  /** Only one term. */
  lemma {:induction false} SumSingle(n: nat, k: nat, g: nat -> nat)
    requires k < n && forall i: nat :: i < n && i != k ==> g(i) == 0
    ensures Sum(n, g) == g(k)
  {
    hide Xor;
    SumExtend(k + 1, n, g);
    SumZero(k, g);
    XorZero(g(k));
  }

  function RowOf(F: (nat, nat) -> nat, i: nat): nat -> nat { (j: nat) => F(i, j) }

  function ColOf(F: (nat, nat) -> nat, j: nat): nat -> nat { (i: nat) => F(i, j) }

  /** Exchanging the order of a double sum; `rows` and `cols` name the two inner sums. */
  lemma {:induction false} SumSwap(m: nat, n: nat, F: (nat, nat) -> nat, rows: nat -> nat, cols: nat -> nat)
    requires forall i: nat :: i < m ==> rows(i) == Sum(n, RowOf(F, i))
    requires forall j: nat :: j < n ==> cols(j) == Sum(m, ColOf(F, j))
    ensures Sum(m, rows) == Sum(n, cols)
  {
    hide Xor;
    if m == 0 {
      SumZero(n, cols);
    } else {
      var last: nat -> nat := (j: nat) => F(m - 1, j);
      var rest: nat -> nat := (j: nat) => Sum(m - 1, ColOf(F, j));
      SumSwap(m - 1, n, F, rows, rest);
      forall j: nat | j < n ensures cols(j) == Xor(rest(j), last(j)) {
        var c: nat -> nat := (i: nat) => F(i, j);
        SumExt(m, c, ColOf(F, j));
        SumExt(m - 1, c, ColOf(F, j));
      }
      SumXor(n, rest, last, cols);
      SumExt(n, last, RowOf(F, m - 1));
    }
  }
}
