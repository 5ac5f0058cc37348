/** The fifteen format bits: BCH encoding by a shift register, and repair of up to three wrong bits
    with the same Berlekamp-Massey loop over GF(16). */
module Format {
  import opened Bits
  import opened Galois
  import opened Tables
  import opened Sums
  import opened Polynomials
  import opened Recurrences
  import opened ErrorTheory
  import opened BerlekampMassey
  import opened ErrorLocation
  import opened Forney
  import opened Syndromes
  import opened CorrectBlock
  import opened BitStream

  const FORMAT_BITS := 15
  const FORMAT_SYNDROMES := 6
  const FORMAT_MASK := 0x5412

  // ---- bits of a word ---------------------------------------------------------------------------------------------

  /** Bit j, the lowest first. */
  function Bit(u: nat, j: nat): bool {
    u / Pow2(j) % 2 == 1
  }

  lemma BitLow(u: nat)
    ensures Bit(u, 0) <==> u % 2 == 1
  {
    assert Pow2(0) == 1;
  }

  lemma BitHigher(u: nat, j: nat)
    ensures Bit(u, j + 1) == Bit(u / 2, j)
  {
    HalveShift(u, j);
  }

  lemma {:induction false} BitXor(a: nat, b: nat, j: nat)
    ensures Bit(Xor(a, b), j) == (Bit(a, j) != Bit(b, j))
  {
    hide Xor, Bit;
    XorStep(a, b);
    if j == 0 {
      BitLow(a); BitLow(b); BitLow(Xor(a, b));
    } else {
      BitHigher(a, j - 1); BitHigher(b, j - 1); BitHigher(Xor(a, b), j - 1);
      BitXor(a / 2, b / 2, j - 1);
    }
  }

  lemma {:induction false} BitOfPower(i: nat, j: nat)
    ensures Bit(Pow2(i), j) == (i == j)
  {
    hide Bit;
    if j == 0 {
      BitLow(Pow2(i));
    } else {
      BitHigher(Pow2(i), j - 1);
      if i == 0 {
        assert Pow2(0) / 2 == 0;
        BitOfZero(j - 1);
      } else {
        assert Pow2(i) / 2 == Pow2(i - 1);
        BitOfPower(i - 1, j - 1);
      }
    }
  }

  lemma BitOfZero(j: nat)
    ensures !Bit(0, j)
  {
    assert 0 / Pow2(j) == 0 by { ModRange(0, Pow2(j)); ModUnique(0, Pow2(j), 0, 0); }
  }

  /** Words below 2^n with the same n bits are equal. */
  lemma {:induction false} SameWord(a: nat, b: nat, n: nat)
    requires a < Pow2(n) && b < Pow2(n) && forall j: nat :: j < n ==> Bit(a, j) == Bit(b, j)
    ensures a == b
  {
    hide Bit;
    if n > 0 {
      BitLow(a); BitLow(b);
      forall j: nat | j < n - 1 ensures Bit(a / 2, j) == Bit(b / 2, j) {
        BitHigher(a, j); BitHigher(b, j);
      }
      SameWord(a / 2, b / 2, n - 1);
      assert Bit(a, 0) == Bit(b, 0);
    }
  }

  // ---- a word as a polynomial over GF(2) ------------------------------------------------------------------------------

  /** The word's bits as coefficients, evaluated at x. */
  function WordEval(f: Gf, u: nat, x: nat): nat {
    if u == 0 then 0 else Xor(u % 2, Mul(f, x, WordEval(f, u / 2, x)))
  }

  lemma {:induction false} WordEvalInField(f: Gf, u: nat, x: nat)
    ensures WordEval(f, u, x) < f.size
  {
    hide Xor, Mul;
    FieldPositive(f);
    if u > 0 {
      AddInField(f, u % 2, Mul(f, x, WordEval(f, u / 2, x)));
    }
  }

  lemma WordEvalStep(f: Gf, u: nat, x: nat)
    ensures WordEval(f, u, x) == Xor(u % 2, Mul(f, x, WordEval(f, u / 2, x)))
  {
    hide Xor, Mul;
    MulZero(f, x);
    XorZero(0);
  }

  lemma {:induction false} WordEvalXor(f: Gf, a: nat, b: nat, x: nat)
    ensures WordEval(f, Xor(a, b), x) == Xor(WordEval(f, a, x), WordEval(f, b, x))
    decreases a + b
  {
    hide Xor, Mul, IsField;
    if a == 0 || b == 0 {
      XorZero(a); XorZero(b); XorZero(WordEval(f, a, x)); XorZero(WordEval(f, b, x));
    } else {
      WordEvalXor(f, a / 2, b / 2, x);
      XorStep(a, b);
      WordEvalStep(f, Xor(a, b), x); WordEvalStep(f, a, x); WordEvalStep(f, b, x);
      var A, B := WordEval(f, a / 2, x), WordEval(f, b / 2, x);
      MulDistrib(f, x, A, B);
      XorSwap(a % 2, Mul(f, x, A), b % 2, Mul(f, x, B));
      LowXor(a % 2, b % 2);
    }
  }

  lemma LowXor(a: nat, b: nat)
    requires a < 2 && b < 2
    ensures Xor(a, b) == if a == b then 0 else 1
  {
  }

  lemma WordEvalDouble(f: Gf, u: nat, x: nat)
    ensures WordEval(f, 2 * u, x) == Mul(f, x, WordEval(f, u, x))
  {
    hide Xor, Mul, IsField;
    WordEvalStep(f, 2 * u, x);
    assert 2 * u % 2 == 0 && 2 * u / 2 == u;
    XorZero(Mul(f, x, WordEval(f, u, x)));
  }

  // ---- encoding ----------------------------------------------------------------------------------------------------------

  const BCH := 0x537

  /** One step of the division register: shift, and subtract the generator on overflow. */
  function RemStep(rem: nat): nat {
    Xor(2 * rem, rem / 512 * BCH)
  }

  function RemSteps(data: nat, n: nat): nat {
    if n == 0 then data else RemStep(RemSteps(data, n - 1))
  }

  lemma {:induction false} RemSmall(data: nat, n: nat)
    requires data < 32
    ensures RemSteps(data, n) < 1024
  {
    hide Xor;
    if n > 0 {
      RemSmall(data, n - 1);
      var r := RemSteps(data, n - 1);
      if r < 512 {
        assert r / 512 * BCH == 0;
        XorZero(2 * r);
      } else {
        assert r / 512 == 1;
        assert IsPow2(1024);
        XorTop(1024, 2 * r, BCH);
      }
    }
  }

  /** The generator vanishes at the first six powers. */
  ghost predicate BchRoot(f: Gf, x: nat) {
    WordEval(f, BCH, x) == 0
  }

  lemma {:induction false} RemEval(f: Gf, data: nat, n: nat, x: nat)
    requires data < 32 && BchRoot(f, x)
    ensures WordEval(f, RemSteps(data, n), x) == Mul(f, XPow(f, x, n), WordEval(f, data, x))
  {
    hide Xor, Mul, IsField, WordEval;
    var E := WordEval(f, data, x);
    WordEvalInField(f, data, x);
    if n == 0 {
      MulOne(f, E);
    } else {
      RemEval(f, data, n - 1, x);
      RemSmall(data, n - 1);
      var r := RemSteps(data, n - 1);
      WordEvalXor(f, 2 * r, r / 512 * BCH, x);
      WordEvalDouble(f, r, x);
      MulAssoc(f, x, XPow(f, x, n - 1), E);
      XorZero(Mul(f, x, WordEval(f, r, x)));
      if r < 512 {
        assert r / 512 * BCH == 0;
        WordEvalZero(f, x);
      } else {
        assert r / 512 * BCH == BCH;
      }
    }
  }

  lemma WordEvalZero(f: Gf, x: nat)
    ensures WordEval(f, 0, x) == 0
  {
  }

  /** The format word of level L and a mask before the fixed pattern is added. */
  function FormatWord(data: nat): nat {
    data * 1024 + RemSteps(data, 10)
  }

  lemma {:induction false} WordEvalShift(f: Gf, u: nat, n: nat, x: nat)
    ensures WordEval(f, u * Pow2(n), x) == Mul(f, XPow(f, x, n), WordEval(f, u, x))
  {
    hide Xor, Mul, IsField, WordEval;
    var E := WordEval(f, u, x);
    if n == 0 {
      WordEvalInField(f, u, x);
      MulOne(f, E);
    } else {
      WordEvalShift(f, u, n - 1, x);
      assert u * Pow2(n) == 2 * (u * Pow2(n - 1));
      WordEvalDouble(f, u * Pow2(n - 1), x);
      MulAssoc(f, x, XPow(f, x, n - 1), E);
    }
  }

  /** High and low parts do not overlap, so adding them is their exclusive or. */
  lemma {:induction false} Disjoint(h: nat, n: nat, low: nat)
    requires low < Pow2(n)
    ensures Xor(h * Pow2(n), low) == h * Pow2(n) + low
  {
    hide Xor;
    if n == 0 {
      XorZero(h);
    } else {
      var p := Pow2(n - 1);
      assert h * Pow2(n) == 2 * (h * p);
      Disjoint(h, n - 1, low / 2);
      XorStep(h * Pow2(n), low);
    }
  }

  /** Every format word is a BCH codeword: it vanishes wherever the generator does. */
  lemma FormatWordVanishes(f: Gf, data: nat, x: nat)
    requires data < 32 && BchRoot(f, x)
    ensures WordEval(f, FormatWord(data), x) == 0
  {
    hide Xor, Mul, IsField, WordEval, BchRoot;
    assert Pow2(10) == 1024 by { PowersOfTwo(); }
    hide Pow2;
    RemSmall(data, 10);
    Disjoint(data, 10, RemSteps(data, 10));
    WordEvalXor(f, data * 1024, RemSteps(data, 10), x);
    WordEvalShift(f, data, 10, x);
    RemEval(f, data, 10, x);
    XorSelf(WordEval(f, data * 1024, x));
  }

  // ---- the generator's roots, by the tables of GF(16) --------------------------------------------------------------------

  /** The table of powers, and its inverse, entry by entry. */
  function Exp16(k: nat): nat {
    if k == 0 then 1 else if k == 1 then 2 else if k == 2 then 4 else if k == 3 then 8 else if k == 4 then 3
    else if k == 5 then 6 else if k == 6 then 12 else if k == 7 then 11 else if k == 8 then 5
    else if k == 9 then 10 else if k == 10 then 7 else if k == 11 then 14 else if k == 12 then 15
    else if k == 13 then 13 else 9
  }

  function Log16(a: nat): nat {
    if a == 1 then 15 else if a == 2 then 1 else if a == 3 then 4 else if a == 4 then 2 else if a == 5 then 8
    else if a == 6 then 5 else if a == 7 then 10 else if a == 8 then 3 else if a == 9 then 14
    else if a == 10 then 9 else if a == 11 then 7 else if a == 12 then 6 else if a == 13 then 13
    else if a == 14 then 11 else 12
  }

  lemma Entries16(k: nat)
    requires k < 15
    ensures Tables16().exp[k] == Exp16(k) && Tables16().log[k + 1] == Log16(k + 1)
  {
  }

  function TableMul(a: nat, b: nat): nat {
    if a == 0 || b == 0 then 0 else Exp16((Log16(a) + Log16(b)) % 15)
  }

  lemma TableMulIsMul(a: nat, b: nat)
    requires a < 16 && b < 16
    ensures TableMul(a, b) == Mul(Gf16(), a, b)
  {
    hide Mul, Tables16, IsField, Exp16, Log16;
    if a == 0 || b == 0 {
      MulZero(Gf16(), a); MulZero(Gf16(), b);
    } else {
      MulTable(Gf16(), a, b);
      Entries16(a - 1); Entries16(b - 1);
      Entries16((Log16(a) + Log16(b)) % 15);
    }
  }

  /** One Horner step from the high end: h x ^ bit. */
  function HornerStep(h: nat, x: nat, bit: nat): nat {
    var m := TableMul(x, h);
    if bit == 0 then m else if m % 2 == 0 then m + 1 else if m > 0 then m - 1 else 0
  }

  lemma HornerStepIs(u: nat, x: nat, h: nat)
    requires x < 16 && h == WordEval(Gf16(), u / 2, x)
    ensures h < 16 && WordEval(Gf16(), u, x) == HornerStep(h, x, u % 2)
  {
    hide Xor, Mul, IsField, Gf16, WordEval, TableMul;
    var f := Gf16();
    WordEvalInField(f, u / 2, x);
    WordEvalStep(f, u, x);
    TableMulIsMul(x, h);
    XorOne(Mul(f, x, h));
    XorZero(Mul(f, x, h));
  }

  lemma XorOne(m: nat)
    ensures Xor(1, m) == if m % 2 == 0 then m + 1 else m - 1
  {
    XorStep(1, m);
    XorZero(m / 2);
  }

  lemma StartHorner(x: nat)
    ensures WordEval(Gf16(), 1, x) == 1
  {
    hide Mul, Xor;
    WordEvalStep(Gf16(), 1, x);
    MulZero(Gf16(), x);
    XorZero(1);
  }

  /** Horner's rule over the first six bits of the generator, 101001. */
  lemma HornerHigh(x: nat, h1: nat, h2: nat, h3: nat, h4: nat, h5: nat)
    requires x < 16 && h1 == HornerStep(1, x, 0) && h2 == HornerStep(h1, x, 1) && h3 == HornerStep(h2, x, 0)
    requires h4 == HornerStep(h3, x, 0) && h5 == HornerStep(h4, x, 1)
    ensures WordEval(Gf16(), 41, x) == h5
  {
    hide HornerStep, WordEval, Gf16, Xor;
    StartHorner(x);
    HornerStepIs(2, x, 1);
    HornerStepIs(5, x, h1);
    HornerStepIs(10, x, h2);
    HornerStepIs(20, x, h3);
    HornerStepIs(41, x, h4);
  }

  /** And over the other five, 10111. */
  lemma HornerLow(x: nat, h5: nat, h6: nat, h7: nat, h8: nat, h9: nat)
    requires x < 16 && WordEval(Gf16(), 41, x) == h5 && h6 == HornerStep(h5, x, 1) && h7 == HornerStep(h6, x, 0)
    requires h8 == HornerStep(h7, x, 1) && h9 == HornerStep(h8, x, 1) && 0 == HornerStep(h9, x, 1)
    ensures WordEval(Gf16(), BCH, x) == 0
  {
    hide HornerStep, WordEval, Gf16, Xor;
    HornerStepIs(83, x, h5);
    HornerStepIs(166, x, h6);
    HornerStepIs(333, x, h7);
    HornerStepIs(667, x, h8);
    HornerStepIs(1335, x, h9);
  }

  lemma High1()
    ensures WordEval(Gf16(), 41, 2) == 15
  {
    hide WordEval, Gf16;
    HornerHigh(2, 2, 5, 10, 7, 15);
  }

  lemma Root1()
    ensures WordEval(Gf16(), BCH, 2) == 0
  {
    hide WordEval, Gf16;
    High1();
    HornerLow(2, 15, 12, 11, 4, 9);
  }

  lemma High2()
    ensures WordEval(Gf16(), 41, 4) == 10
  {
    hide WordEval, Gf16;
    HornerHigh(4, 4, 2, 8, 6, 10);
  }

  lemma Root2()
    ensures WordEval(Gf16(), BCH, 4) == 0
  {
    hide WordEval, Gf16;
    High2();
    HornerLow(4, 10, 15, 9, 3, 13);
  }

  lemma High3()
    ensures WordEval(Gf16(), 41, 8) == 10
  {
    hide WordEval, Gf16;
    HornerHigh(8, 8, 13, 2, 3, 10);
  }

  lemma Root3()
    ensures WordEval(Gf16(), BCH, 8) == 0
  {
    hide WordEval, Gf16;
    High3();
    HornerLow(8, 10, 14, 9, 5, 15);
  }

  lemma High4()
    ensures WordEval(Gf16(), 41, 3) == 8
  {
    hide WordEval, Gf16;
    HornerHigh(3, 3, 4, 12, 7, 8);
  }

  lemma Root4()
    ensures WordEval(Gf16(), BCH, 3) == 0
  {
    hide WordEval, Gf16;
    High4();
    HornerLow(3, 8, 10, 13, 5, 14);
  }

  lemma High5()
    ensures WordEval(Gf16(), 41, 6) == 7
  {
    hide WordEval, Gf16;
    HornerHigh(6, 6, 6, 7, 1, 7);
  }

  lemma Root5()
    ensures WordEval(Gf16(), BCH, 6) == 0
  {
    hide WordEval, Gf16;
    High5();
    HornerLow(6, 7, 0, 0, 1, 7);
  }

  lemma High6()
    ensures WordEval(Gf16(), 41, 12) == 8
  {
    hide WordEval, Gf16;
    HornerHigh(12, 12, 14, 4, 5, 8);
  }

  lemma Root6()
    ensures WordEval(Gf16(), BCH, 12) == 0
  {
    hide WordEval, Gf16;
    High6();
    HornerLow(12, 8, 11, 13, 2, 10);
  }

  lemma BchRoots(k: nat)
    requires 1 <= k <= 6
    ensures BchRoot(Gf16(), Pow(Gf16(), k))
  {
    hide WordEval, Pow;
    Powers16(k);
    Root1(); Root2(); Root3(); Root4(); Root5(); Root6();
  }

  lemma Powers16(k: nat)
    requires k < 15
    ensures Pow(Gf16(), k) == Tables16().exp[k]
  {
    hide StepAt, ExpAt, LogAt;
  }

  // ---- syndromes of a word ---------------------------------------------------------------------------------------------

  /** The fifteen bits as a block over GF(16), the top bit first. */
  function WordBlock(u: nat): (b: seq<nat>)
    ensures |b| == FORMAT_BITS && forall i :: 0 <= i < FORMAT_BITS ==> b[i] == if Bit(u, 14 - i) then 1 else 0
  {
    seq(FORMAT_BITS, i requires 0 <= i < FORMAT_BITS => if Bit(u, 14 - i) then 1 else 0)
  }

  lemma WordBlockInField(u: nat)
    ensures InFieldAll(Gf16(), WordBlock(u))
  {
    FieldPositive(Gf16());
  }

  /** Syndrome i is taken at the power i + 1. */
  function FormatSyndrome(u: nat, i: nat): nat {
    Syndrome(Gf16(), WordBlock(u), i + 1)
  }

  ghost predicate FormatOk(u: nat) {
    forall i: nat :: i < FORMAT_SYNDROMES ==> FormatSyndrome(u, i) == 0
  }

  function WordTerm(f: Gf, u: nat, k: nat): nat -> nat {
    (j: nat) => if Bit(u, j) then Pow(f, k * j) else 0
  }

  lemma WordTermAt(f: Gf, u: nat, k: nat, j: nat)
    ensures WordTerm(f, u, k)(j) == if Bit(u, j) then Pow(f, k * j) else 0
  {
  }

  lemma WordTermIsSyndromeTerm(f: Gf, u: nat, k: nat, j: nat)
    requires j < FORMAT_BITS
    ensures WordTerm(f, u, k)(j) == SyndromeTerm(f, WordBlock(u), k)(j)
  {
    hide Mul, Pow, Bit, IsField;
    MulOne(f, Pow(f, k * j));
    MulZero(f, Pow(f, k * j));
  }

  lemma WordTermStep(f: Gf, u: nat, k: nat, j: nat)
    ensures WordTerm(f, u, k)(1 + j) == Mul(f, Pow(f, k), WordTerm(f, u / 2, k)(j))
  {
    hide Mul, Pow, Bit, IsField;
    BitHigher(u, j);
    assert k * (1 + j) == k + k * j;
    PowMul(f, k, k * j);
    MulZero(f, Pow(f, k));
  }

  /** All terms but the first are those of the word without its low bit, times the power. */
  lemma RestSum(f: Gf, u: nat, k: nat, n: nat)
    ensures Sum(n + 1, WordTerm(f, u, k)) == Xor(u % 2, Mul(f, Pow(f, k), Sum(n, WordTerm(f, u / 2, k))))
  {
    hide Mul, Pow, Xor, WordTerm, Sum;
    var g, h := WordTerm(f, u, k), WordTerm(f, u / 2, k);
    var rest: nat -> nat := (j: nat) => g(1 + j);
    SumSplit(1, n, g, rest);
    forall j: nat | j < n ensures rest(j) == Mul(f, Pow(f, k), h(j)) {
      WordTermStep(f, u, k, j);
    }
    SumScale(f, n, Pow(f, k), h, rest);
    FirstTerm(f, u, k);
  }

  lemma {:induction false} WordSum(f: Gf, u: nat, k: nat, n: nat)
    requires u < Pow2(n)
    ensures Sum(n, WordTerm(f, u, k)) == WordEval(f, u, Pow(f, k))
  {
    hide Mul, Pow, Xor, WordTerm, WordEval;
    if n == 0 {
      ZeroEval(f, Pow(f, k));
    } else {
      hide Sum;
      WordSum(f, u / 2, k, n - 1);
      RestSum(f, u, k, n - 1);
      WordEvalStep(f, u, Pow(f, k));
    }
  }

  /** The terms are those of the syndrome of the word as a block. */
  lemma WordSyndrome(u: nat, k: nat)
    ensures Syndrome(Gf16(), WordBlock(u), k) == Sum(15, WordTerm(Gf16(), u, k))
  {
    hide Gf16, WordTerm, SyndromeTerm, WordBlock, Sum;
    var f := Gf16();
    forall j: nat | j < 15 ensures WordTerm(f, u, k)(j) == SyndromeTerm(f, WordBlock(u), k)(j) {
      WordTermIsSyndromeTerm(f, u, k, j);
    }
    SumExt(15, WordTerm(f, u, k), SyndromeTerm(f, WordBlock(u), k));
  }

  lemma ZeroEval(f: Gf, x: nat)
    ensures WordEval(f, 0, x) == 0
  {
  }

  lemma FirstTerm(f: Gf, u: nat, k: nat)
    ensures Sum(1, WordTerm(f, u, k)) == u % 2
  {
    hide Mul, Pow, Xor, Bit, IsField;
    var g := WordTerm(f, u, k);
    BitLow(u);
    assert k * 0 == 0;
    PowStart(f);
    XorZero(u % 2);
    assert Sum(1, g) == Xor(Sum(0, g), g(0));
  }

  lemma PowStart(f: Gf)
    ensures Pow(f, 0) == 1
  {
  }

  lemma SyndromeIsWordEval(u: nat, k: nat)
    requires u < 32768
    ensures Syndrome(Gf16(), WordBlock(u), k) == WordEval(Gf16(), u, Pow(Gf16(), k))
  {
    hide Mul, Pow, Xor, Bit, IsField, WordEval, Gf16;
    var f := Gf16();
    assert Pow2(15) == 32768 by { assert Pow2(8) == 256 by { PowersOfTwo(); } assert Pow2(10) == 1024; assert Pow2(12) == 4096; }
    WordSum(f, u, k, 15);
    WordSyndrome(u, k);
  }

  /** What the encoder writes passes the decoder's syndrome check. */
  lemma FormatWordOk(data: nat)
    requires data < 32
    ensures FormatWord(data) < 32768 && FormatOk(FormatWord(data)) && FormatWord(data) / 1024 == data
  {
    hide Pow, WordEval, Syndrome, WordBlock, Gf16, RemSteps;
    RemSmall(data, 10);
    forall i: nat | i < FORMAT_SYNDROMES ensures FormatSyndrome(FormatWord(data), i) == 0 {
      BchRoots(i + 1);
      FormatWordVanishes(Gf16(), data, Pow(Gf16(), i + 1));
      SyndromeIsWordEval(FormatWord(data), i + 1);
    }
  }

  // ---- the decoder's loops -----------------------------------------------------------------------------------------------

  method OneFormatSyndrome(u: nat, i: nat) returns (s: nat)
    ensures s == FormatSyndrome(u, i) < 16
  {
    hide Mul, Pow, Xor, Bit, IsField, Gf16, WordTerm, Syndrome, Sum;
    var f := Gf16();
    ghost var term := WordTerm(f, u, i + 1);
    s := 0;
    FieldPositive(f);
    NoTerms(term);
    for j := 0 to FORMAT_BITS
      invariant s == Sum(j, term) && s < 16
    {
      WordTermAt(f, u, i + 1, j);
      NextTerm(j, term);
      XorZero(s);
      if Bit(u, j) {
        TableModulo(f, (i + 1) * j);
        AddInField(f, s, Pow(f, (i + 1) * j));
        s := Xor(s, f.exp[(i + 1) * j % 15]);
      }
    }
    WordSyndrome(u, i + 1);
  }

  lemma TableModulo(f: Gf, k: nat)
    requires f.p == 15
    ensures k % 15 < |f.exp| && f.exp[k % 15] == Pow(f, k)
  {
  }

  method FormatSyndromes(u: nat, s: array<nat>) returns (nonzero: bool)
    requires s.Length == MAX_POLY
    modifies s
    ensures forall i :: 0 <= i < MAX_POLY ==> s[i] == if i < FORMAT_SYNDROMES then FormatSyndrome(u, i) else 0
    ensures forall i :: 0 <= i < MAX_POLY ==> s[i] < 16
    ensures nonzero <==> !FormatOk(u)
  {
    hide FormatSyndrome;
    Zero(s);
    nonzero := false;
    for i := 0 to FORMAT_SYNDROMES
      invariant forall k :: 0 <= k < MAX_POLY ==> s[k] == if k < i then FormatSyndrome(u, k) else 0
      invariant forall k :: 0 <= k < MAX_POLY ==> s[k] < 16
      invariant nonzero <==> exists k: nat :: k < i && FormatSyndrome(u, k) != 0
    {
      s[i] := OneFormatSyndrome(u, i);
      if s[i] != 0 {
        nonzero := true;
      }
    }
  }

  // ---- repair ----------------------------------------------------------------------------------------------------------

  /** The number of format bits in which two words differ. */
  function BitDistance(v: nat, u: nat): nat {
    Distance(WordBlock(v), WordBlock(u))
  }

  /** v is a format codeword at most three bits from u. */
  ghost predicate NearFormat(v: nat, u: nat) {
    v < 32768 && FormatOk(v) && BitDistance(v, u) <= 3
  }

  lemma BlockBits(v: nat, u: nat, j: nat)
    requires j < FORMAT_BITS
    ensures WordBlock(v)[14 - j] != WordBlock(u)[14 - j] <==> Bit(v, j) != Bit(u, j)
  {
  }

  /** The syndromes of u are power sums of the wrong positions, each weighted by itself. */
  lemma FormatSums(v: nat, u: nat, s: seq<nat>)
    requires FormatOk(v) && |s| >= FORMAT_SYNDROMES
    requires forall i :: 0 <= i < FORMAT_SYNDROMES ==> s[i] == FormatSyndrome(u, i)
    ensures var xs, ys := Locators(Gf16(), WordBlock(v), WordBlock(u), 15), Magnitudes(WordBlock(v), WordBlock(u), 15);
      IsPowerSums(Gf16(), s, xs, Scaled(Gf16(), xs, ys), FORMAT_SYNDROMES)
  {
    hide Mul, Pow, Xor, Bit, IsField, Gf16, Wrong, WordBlock, Syndrome;
    var f := Gf16();
    var c, r := WordBlock(v), WordBlock(u);
    var xs, ys := Locators(f, c, r, 15), Magnitudes(c, r, 15);
    var zs := Scaled(f, xs, ys);
    forall i: nat | i < FORMAT_SYNDROMES ensures C(s, i) == PowerSum(f, xs, zs, i) {
      OneFormatSum(v, u, i);
    }
  }

  lemma OneFormatSum(v: nat, u: nat, i: nat)
    requires FormatOk(v) && i < FORMAT_SYNDROMES
    ensures var xs, ys := Locators(Gf16(), WordBlock(v), WordBlock(u), 15), Magnitudes(WordBlock(v), WordBlock(u), 15);
      FormatSyndrome(u, i) == PowerSum(Gf16(), xs, Scaled(Gf16(), xs, ys), i)
  {
    hide Mul, Pow, Xor, Bit, IsField, Gf16, Wrong;
    var f := Gf16();
    var c, r := WordBlock(v), WordBlock(u);
    var xs, ys := Locators(f, c, r, 15), Magnitudes(c, r, 15);
    SyndromeSplit(f, c, r, i + 1, 15);
    assert FormatSyndrome(v, i) == 0;
    XorZero(PowerSum(f, xs, ys, i + 1));
    forall e: nat | e < |xs| ensures PowerTerm(f, xs, Scaled(f, xs, ys), i)(e) == PowerTerm(f, xs, ys, i + 1)(e) {
      MulAssoc(f, ys[e], xs[e], XPow(f, xs[e], i));
    }
    SumExt(|xs|, PowerTerm(f, xs, Scaled(f, xs, ys), i), PowerTerm(f, xs, ys, i + 1));
  }

  lemma FormatUnits(v: nat, u: nat)
    ensures var xs, ys := Locators(Gf16(), WordBlock(v), WordBlock(u), 15), Magnitudes(WordBlock(v), WordBlock(u), 15);
      Units(Gf16(), xs) && Distinct(xs) && Units(Gf16(), Scaled(Gf16(), xs, ys))
  {
    hide Mul, Pow, Xor, Bit, IsField, Gf16, Wrong, WordBlock;
    var f := Gf16();
    var c, r := WordBlock(v), WordBlock(u);
    var xs, ys := Locators(f, c, r, 15), Magnitudes(c, r, 15);
    WordBlockInField(v); WordBlockInField(u);
    LocatorsAreUnits(f, c, r);
    forall e | 0 <= e < |xs| ensures Mul(f, ys[e], xs[e]) != 0 {
      MulNonzero(f, ys[e], xs[e]);
    }
  }

  /** The root search flips exactly the wrong bits. */
  lemma FormatRoots(v: nat, u: nat, s: seq<nat>, sigma: seq<nat>, L: nat, j: nat)
    requires NearFormat(v, u) && |s| == MAX_POLY && |sigma| == MAX_POLY && j < FORMAT_BITS
    requires forall i :: 0 <= i < FORMAT_SYNDROMES ==> s[i] == FormatSyndrome(u, i)
    requires Shortest(Gf16(), sigma, L, s, FORMAT_SYNDROMES)
    ensures Eval(Gf16(), sigma, Pow(Gf16(), 15 - j), MAX_POLY) == 0 <==> Bit(v, j) != Bit(u, j)
  {
    hide Mul, Pow, Xor, Bit, IsField, Gf16, Wrong, WordBlock, Eval, Inv, FormatOk, FormatSyndrome, Generates, Minimal;
    var f := Gf16();
    var c, r := WordBlock(v), WordBlock(u);
    var xs, ys := Locators(f, c, r, 15), Magnitudes(c, r, 15);
    FormatSums(v, u, s);
    FormatUnits(v, u);
    ShortestLocates(f, sigma, L, s, xs, Scaled(f, xs, ys), FORMAT_SYNDROMES);
    InvPower(f, j);
    EvalExtend(f, sigma, Pow(f, 15 - j), |xs| + 1, MAX_POLY);
    WrongMembers(c, r, 15, j);
    BlockBits(v, u, j);
    if Bit(v, j) != Bit(u, j) {
      var k :| 0 <= k < |xs| && Wrong(c, r, 15)[k] == j;
      assert xs[k] == Pow(f, j);
    } else if Eval(f, sigma, Pow(f, 15 - j), MAX_POLY) == 0 {
      OnlyLocators(f, sigma, xs, Pow(f, j));
      var k :| 0 <= k < |xs| && xs[k] == Pow(f, j);
      PowEq(f, Wrong(c, r, 15)[k], j);
    }
  }

  lemma InvPower(f: Gf, j: nat)
    requires f.p == 15 && j < 15
    ensures Pow(f, 15 - j) == Inv(f, Pow(f, j))
  {
    hide Mul, Pow, Log, IsField;
    var a, b := Pow(f, 15 - j), Inv(f, Pow(f, j));
    PowMul(f, 15 - j, j);
    PowEnd(f);
    MulInv(f, Pow(f, j));
    MulAssoc(f, a, Pow(f, j), b);
    MulOne(f, a);
    MulOne(f, b);
  }

  /** Two format codewords three bits apart or closer are the same. */
  lemma NearFormatSame(v: nat, u: nat)
    requires NearFormat(v, u) && FormatOk(u) && u < 32768
    ensures v == u
  {
    hide Mul, Pow, Xor, Bit, IsField, Gf16, Wrong, WordBlock, FormatSyndrome;
    var f := Gf16();
    var c, r := WordBlock(v), WordBlock(u);
    var xs, ys := Locators(f, c, r, 15), Magnitudes(c, r, 15);
    var zs := Scaled(f, xs, ys);
    var s := seq(FORMAT_SYNDROMES, i => 0);
    forall i | 0 <= i < FORMAT_SYNDROMES ensures s[i] == FormatSyndrome(u, i) {
      assert FormatSyndrome(u, i) == 0;
    }
    FormatSums(v, u, s);
    FormatUnits(v, u);
    forall j: nat | j < FORMAT_SYNDROMES ensures PowerSum(f, xs, zs, j) == 0 {
      assert C(s, j) == PowerSum(f, xs, zs, j);
    }
    Vandermonde(f, xs, zs, FORMAT_SYNDROMES);
    assert |zs| > 0 ==> C(zs, 0) == 0 && C(zs, 0) > 0;
    NoDistanceSame(c, r);
    SameBlocks(v, u);
  }

  lemma SameBlocks(v: nat, u: nat)
    requires v < 32768 && u < 32768 && WordBlock(v) == WordBlock(u)
    ensures v == u
  {
    assert Pow2(15) == 32768 by { PowersOfTwo(); assert Pow2(10) == 1024; assert Pow2(12) == 4096; }
    forall j: nat | j < 15 ensures Bit(v, j) == Bit(u, j) {
      BlockBits(v, u, j);
    }
    SameWord(v, u, 15);
  }

  /** Repairs up to three wrong bits of a format word. */
  method CorrectFormat(word: nat) returns (ok: bool, u: nat)
    requires word < 32768
    ensures ok ==> u < 32768 && FormatOk(u)
    ensures forall v: nat {:trigger NearFormat(v, word)} :: NearFormat(v, word) ==> ok && u == v
  {
    hide Mul, Pow, Xor, Bit, IsField, Gf16, Wrong, WordBlock, Eval, FormatOk, NearFormat, FormatSyndrome, Connection, Minimal;
    var f := Gf16();
    u := word;
    var s := new nat[MAX_POLY](_ => 0);
    var sigma := new nat[MAX_POLY](_ => 0);
    var nonzero := FormatSyndromes(u, s);
    if !nonzero {
      forall v: nat {:trigger NearFormat(v, word)} | NearFormat(v, word) ensures u == v {
        NearFormatSame(v, word);
      }
      return true, u;
    }
    ghost var s0 := s[..];
    ghost var L := Run(s, FORMAT_SYNDROMES, f, sigma);
    ghost var sg := sigma[..];
    ShortestConnection(f, sg, L, s0, FORMAT_SYNDROMES);
    ConnectionInField(f, sg, L);
    for i := 0 to FORMAT_BITS
      invariant sigma[..] == sg && u < 32768
      invariant forall j: nat :: j < FORMAT_BITS ==>
        Bit(u, j) == (Bit(word, j) != (j < i && Eval(f, sg, Pow(f, 15 - j), MAX_POLY) == 0))
    {
      TableEntry(f, 15 - i);
      var value := PolyEval(sigma, f.exp[15 - i], f);
      if value == 0 {
        FlipBit(u, i);
        u := Xor(u, Pow2(i));
      }
    }
    forall v: nat {:trigger NearFormat(v, word)} | NearFormat(v, word) ensures u == v {
      FormatRepaired(v, word, s0, sg, L, u);
    }
    var bad := FormatSyndromes(u, s);
    ok := !bad;
    forall v: nat {:trigger NearFormat(v, word)} | NearFormat(v, word) ensures ok {
      NearFormatOk(v, word);
    }
  }

  lemma NearFormatOk(v: nat, u: nat)
    requires NearFormat(v, u)
    ensures FormatOk(v)
  {
  }

  lemma ConnectionInField(f: Gf, p: seq<nat>, L: nat)
    requires Connection(f, p, L)
    ensures InFieldAll(f, p)
  {
  }

  lemma FlipBit(u: nat, i: nat)
    requires u < 32768 && i < FORMAT_BITS
    ensures Xor(u, Pow2(i)) < 32768
    ensures forall j: nat :: Bit(Xor(u, Pow2(i)), j) == (Bit(u, j) != (i == j))
  {
    hide Xor, Bit;
    assert Pow2(15) == 32768 by { PowersOfTwo(); assert Pow2(10) == 1024; assert Pow2(12) == 4096; }
    PowerIsPow2(15);
    PowerLess(i, 15);
    XorLess(32768, u, Pow2(i));
    forall j: nat ensures Bit(Xor(u, Pow2(i)), j) == (Bit(u, j) != (i == j)) {
      BitXor(u, Pow2(i), j);
      BitOfPower(i, j);
    }
  }

  lemma {:induction false} PowerIsPow2(n: nat)
    ensures IsPow2(Pow2(n))
  {
    if n > 0 {
      PowerIsPow2(n - 1);
      assert Pow2(n) / 2 == Pow2(n - 1);
    }
  }

  lemma {:induction false} PowerLess(i: nat, n: nat)
    requires i < n
    ensures Pow2(i) < Pow2(n)
  {
    if i + 1 < n {
      PowerLess(i, n - 1);
    }
  }

  lemma FormatRepaired(v: nat, word: nat, s: seq<nat>, sigma: seq<nat>, L: nat, u: nat)
    requires NearFormat(v, word) && u < 32768 && |s| == MAX_POLY && |sigma| == MAX_POLY
    requires forall i :: 0 <= i < FORMAT_SYNDROMES ==> s[i] == FormatSyndrome(word, i)
    requires Shortest(Gf16(), sigma, L, s, FORMAT_SYNDROMES)
    requires forall j: nat :: j < FORMAT_BITS ==>
      Bit(u, j) == (Bit(word, j) != (Eval(Gf16(), sigma, Pow(Gf16(), 15 - j), MAX_POLY) == 0))
    ensures u == v
  {
    hide Mul, Pow, Xor, Bit, IsField, Gf16, Wrong, WordBlock, Eval, FormatOk, FormatSyndrome, Connection, Minimal;
    assert Pow2(15) == 32768 by { PowersOfTwo(); assert Pow2(10) == 1024; assert Pow2(12) == 4096; }
    forall j: nat | j < 15 ensures Bit(u, j) == Bit(v, j) {
      FormatRoots(v, word, s, sigma, L, j);
    }
    SameWord(u, v, 15);
  }
}
