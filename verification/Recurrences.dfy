/** Linear recurrences: convolution of a connection polynomial with a sequence, and Massey's bound on
    the length of a recurrence that survives a discrepancy. */
module Recurrences {
  import opened Bits
  import opened Galois
  import opened Sums
  import opened Polynomials

  function ConvTerm(f: Gf, p: seq<nat>, s: seq<nat>, k: int): nat -> nat {
    (i: nat) => Mul(f, C(p, i), C(s, k - i))
  }

  /** p[0] s[k] ^ p[1] s[k-1] ^ ... ^ p[k] s[0]; for negative k the empty sum. */
  function Conv(f: Gf, p: seq<nat>, s: seq<nat>, k: int): nat {
    Sum(if k < 0 then 0 else k + 1, ConvTerm(f, p, s, k))
  }

  /** p generates s[from..to]: every later term follows from the earlier ones. */
  ghost predicate Generates(f: Gf, p: seq<nat>, s: seq<nat>, from: nat, to: nat) {
    forall k: nat {:trigger Conv(f, p, s, k)} :: from <= k < to ==> Conv(f, p, s, k) == 0
  }

  /** A recurrence of length at most L: constant term 1 and degree at most L. */
  ghost predicate Connection(f: Field, p: seq<nat>, L: nat) {
    C(p, 0) == 1 && DegreeAtMost(p, L) && InFieldAll(f, p)
  }

  /** More terms than needed may be summed. */
  lemma ConvWide(f: Gf, p: seq<nat>, s: seq<nat>, k: int, n: nat)
    requires k < n
    ensures Sum(n, ConvTerm(f, p, s, k)) == Conv(f, p, s, k)
  {
    hide Mul;
    forall i: nat | i > k ensures ConvTerm(f, p, s, k)(i) == 0 {
      MulZero(f, C(p, i));
    }
    SumExtend(if k < 0 then 0 else k + 1, n, ConvTerm(f, p, s, k));
  }

  /** Only the terms up to the degree of p matter. */
  lemma ConvNarrow(f: Gf, p: seq<nat>, s: seq<nat>, k: nat, d: nat)
    requires d <= k && DegreeAtMost(p, d)
    ensures Sum(d + 1, ConvTerm(f, p, s, k)) == Conv(f, p, s, k)
  {
    hide Mul, Xor;
    forall i: nat | d < i ensures ConvTerm(f, p, s, k)(i) == 0 {
      assert C(p, i) == 0;
      MulZero(f, C(s, k - i));
    }
    SumExtend(d + 1, k + 1, ConvTerm(f, p, s, k));
  }

  // ---- p(z) + c z^m q(z) ------------------------------------------------------------------------

  ghost predicate Combined(f: Gf, r: seq<nat>, p: seq<nat>, c: nat, q: seq<nat>, m: nat) {
    forall i: nat {:trigger C(r, i)} :: C(r, i) == Xor(C(p, i), Mul(f, c, C(q, i - m)))
  }

  function ShiftTerm(f: Gf, q: seq<nat>, s: seq<nat>, k: int, m: nat): nat -> nat {
    (i: nat) => Mul(f, C(q, i - m), C(s, k - i))
  }

  /** Dropping the first m terms, which are zero, re-indexes the sum. */
  lemma ShiftedSum(f: Gf, q: seq<nat>, s: seq<nat>, k: int, m: nat, n: nat)
    requires n == if k < 0 then 0 else k + 1
    ensures Sum(n, ShiftTerm(f, q, s, k, m)) == Conv(f, q, s, k - m)
  {
    hide Xor, Mul, C, ShiftTerm, ConvTerm, Sum;
    var shifted := ShiftTerm(f, q, s, k, m);
    forall i: nat | i < m ensures shifted(i) == 0 {
      ShiftedZero(f, q, s, k, m, i);
    }
    if m <= n {
      var rest := ConvTerm(f, q, s, k - m);
      forall i: nat | i < n - m ensures shifted(m + i) == rest(i) {
        ShiftedTerm(f, q, s, k, m, i);
      }
      SumSplit(m, n - m, shifted, rest);
      SumZero(m, shifted);
      XorZero(Sum(n - m, rest));
    } else {
      SumZero(n, shifted);
      NoTerms(ConvTerm(f, q, s, k - m));
    }
  }

  lemma ShiftedZero(f: Gf, q: seq<nat>, s: seq<nat>, k: int, m: nat, i: nat)
    requires i < m
    ensures ShiftTerm(f, q, s, k, m)(i) == 0
  {
    hide Mul;
    assert C(q, i - m) == 0;
    MulZero(f, C(s, k - i));
  }

  lemma ShiftedTerm(f: Gf, q: seq<nat>, s: seq<nat>, k: int, m: nat, i: nat)
    ensures ShiftTerm(f, q, s, k, m)(m + i) == ConvTerm(f, q, s, k - m)(i)
  {
    hide Mul;
    assert C(s, k - (m + i)) == C(s, k - m - i);
  }

  lemma CombinedTerm(f: Gf, r: seq<nat>, p: seq<nat>, c: nat, q: seq<nat>, m: nat, s: seq<nat>, k: int, i: nat)
    requires Combined(f, r, p, c, q, m)
    ensures ConvTerm(f, r, s, k)(i) == Xor(ConvTerm(f, p, s, k)(i), Mul(f, c, ShiftTerm(f, q, s, k, m)(i)))
  {
    hide Xor, Mul;
    var y := C(s, k - i);
    assert C(r, i) == Xor(C(p, i), Mul(f, c, C(q, i - m)));
    hide Combined, C;
    MulDistribRight(f, C(p, i), Mul(f, c, C(q, i - m)), y);
    MulAssoc(f, c, C(q, i - m), y);
  }

  lemma ConvCombined(f: Gf, r: seq<nat>, p: seq<nat>, c: nat, q: seq<nat>, m: nat, s: seq<nat>, k: int)
    requires Combined(f, r, p, c, q, m)
    ensures Conv(f, r, s, k) == Xor(Conv(f, p, s, k), Mul(f, c, Conv(f, q, s, k - m)))
  {
    hide Xor, Mul, Sum, Combined, C, ConvTerm, ShiftTerm;
    var n: nat := if k < 0 then 0 else k + 1;
    var shifted := ShiftTerm(f, q, s, k, m);
    var scaled: nat -> nat := (i: nat) => Mul(f, c, shifted(i));
    forall i: nat | i < n ensures ConvTerm(f, r, s, k)(i) == Xor(ConvTerm(f, p, s, k)(i), scaled(i)) {
      CombinedTerm(f, r, p, c, q, m, s, k, i);
    }
    SumXor(n, ConvTerm(f, p, s, k), scaled, ConvTerm(f, r, s, k));
    SumScale(f, n, c, shifted, scaled);
    ShiftedSum(f, q, s, k, m, n);
  }

  // ---- Massey's bound ----------------------------------------------------------------------------

  function NestTerm(f: Gf, p: seq<nat>, q: seq<nat>, s: seq<nat>, n: int): nat -> nat {
    (i: nat) => Mul(f, C(p, i), Conv(f, q, s, n - i))
  }

  /** Convolving with q and then p is convolving with p and then q. */
  lemma ConvCommute(f: Gf, p: seq<nat>, q: seq<nat>, s: seq<nat>, n: nat)
    ensures Sum(n + 1, NestTerm(f, p, q, s, n)) == Sum(n + 1, NestTerm(f, q, p, s, n))
  {
    hide Mul, Sum, NestTerm, Products;
    var F, N := Products(f, p, q, s, n), n + 1;
    forall i: nat | i < N ensures NestTerm(f, p, q, s, n)(i) == Sum(N, RowOf(F, i)) {
      NestRow(f, p, q, s, n, i);
    }
    forall j: nat | j < N ensures NestTerm(f, q, p, s, n)(j) == Sum(N, ColOf(F, j)) {
      NestColumn(f, p, q, s, n, j);
    }
    SumSwap(N, N, F, NestTerm(f, p, q, s, n), NestTerm(f, q, p, s, n));
  }

  function Products(f: Gf, p: seq<nat>, q: seq<nat>, s: seq<nat>, n: nat): (nat, nat) -> nat {
    (i: nat, j: nat) => Mul(f, C(p, i), Mul(f, C(q, j), C(s, n - i - j)))
  }

  lemma NestRow(f: Gf, p: seq<nat>, q: seq<nat>, s: seq<nat>, n: nat, i: nat)
    requires i <= n
    ensures NestTerm(f, p, q, s, n)(i) == Sum(n + 1, RowOf(Products(f, p, q, s, n), i))
  {
    hide Mul, Sum, Conv;
    var row := RowOf(Products(f, p, q, s, n), i);
    ConvWide(f, q, s, n - i, n + 1);
    SumScale(f, n + 1, C(p, i), ConvTerm(f, q, s, n - i), row);
  }

  lemma NestColumn(f: Gf, p: seq<nat>, q: seq<nat>, s: seq<nat>, n: nat, j: nat)
    requires j <= n
    ensures NestTerm(f, q, p, s, n)(j) == Sum(n + 1, ColOf(Products(f, p, q, s, n), j))
  {
    hide Mul, Sum, Conv;
    var col := ColOf(Products(f, p, q, s, n), j);
    ConvWide(f, p, s, n - j, n + 1);
    forall i: nat | i < n + 1 ensures col(i) == Mul(f, C(q, j), ConvTerm(f, p, s, n - j)(i)) {
      var x := C(s, n - i - j);
      MulAssoc(f, C(p, i), C(q, j), x);
      MulComm(f, C(p, i), C(q, j));
      MulAssoc(f, C(q, j), C(p, i), x);
    }
    SumScale(f, n + 1, C(q, j), ConvTerm(f, p, s, n - j), col);
  }

  /** If p of length t generates s up to and including n, and q of length L generates it up to n,
      then unless t + L > n the recurrence q also predicts s[n]. */
  lemma Massey(f: Gf, p: seq<nat>, t: nat, q: seq<nat>, L: nat, s: seq<nat>, n: nat)
    requires Connection(f, p, t) && Generates(f, p, s, t, n + 1)
    requires Connection(f, q, L) && Generates(f, q, s, L, n)
    requires t + L <= n
    ensures Conv(f, q, s, n) == 0
  {
    hide Xor, Mul, Conv;
    ConvCommute(f, p, q, s, n);
    var left, right := NestTerm(f, p, q, s, n), NestTerm(f, q, p, s, n);
    forall i: nat | i < n + 1 && i != 0 ensures left(i) == 0 {
      if i <= t {
        assert Conv(f, q, s, n - i) == 0;
      } else {
        assert C(p, i) == 0;
      }
      MulZero(f, Conv(f, q, s, n - i));
      MulZero(f, C(p, i));
    }
    SumSingle(n + 1, 0, left);
    forall j: nat | j < n + 1 ensures right(j) == 0 {
      if j <= L {
        assert Conv(f, p, s, n - j) == 0;
      } else {
        assert C(q, j) == 0;
      }
      MulZero(f, Conv(f, p, s, n - j));
      MulZero(f, C(q, j));
    }
    SumZero(n + 1, right);
    ConvInField(f, q, s, n);
    MulOne(f, Conv(f, q, s, n));
  }

  lemma {:induction false} SumInField(f: Gf, n: nat, g: nat -> nat)
    requires forall i: nat :: i < n ==> g(i) < f.size
    ensures Sum(n, g) < f.size
  {
    hide Xor;
    if n > 0 {
      SumInField(f, n - 1, g);
      AddInField(f, Sum(n - 1, g), g(n - 1));
    }
  }

  lemma ConvInField(f: Gf, p: seq<nat>, s: seq<nat>, k: int)
    ensures Conv(f, p, s, k) < f.size
  {
    hide Mul;
    SumInField(f, if k < 0 then 0 else k + 1, ConvTerm(f, p, s, k));
  }
}
