/** Galois fields of characteristic two, driven by exponent and logarithm tables.

    A `Field` is the structure the decoder passes around (order of the multiplicative group and the
    two tables) together with the polynomial that generates the tables.  `Gf` is the type of the
    fields whose tables are consistent; the laws below hold for every `Gf`. */
module Galois {
  import opened Bits

  /** `p` is the order of the generator, `size` the number of elements, `poly` the generator polynomial. */
  datatype Field = Field(p: nat, exp: seq<nat>, log: seq<nat>, size: nat, poly: nat)

  /** Multiplication by the generator: shift, and reduce on overflow. */
  function Step(f: Field, x: nat): nat {
    if 2 * x >= f.size then Xor(2 * x, f.poly) else 2 * x
  }

  predicate StepAt(f: Field, k: nat)
    requires k + 1 < |f.exp|
  {
    f.exp[k + 1] == Step(f, f.exp[k])
  }

  /** The exponent entry at k is a nonzero element whose logarithm is k again. */
  predicate ExpAt(f: Field, k: nat)
    requires 0 < f.p && k < |f.exp|
  {
    var x := f.exp[k];
    0 < x < f.size && x < |f.log| && f.log[x] % f.p == k % f.p
  }

  predicate LogAt(f: Field, x: nat)
    requires 0 < f.p && |f.exp| == f.p + 1
  {
    x < |f.log| && f.log[x] <= f.p && f.exp[f.log[x] % f.p] == x
  }

  ghost predicate IsField(f: Field) {
    && (f.p == 1 || f.p == 15 || f.p == 255)
    && |f.exp| == f.p + 1
    && f.exp[0] == 1 && f.exp[f.p] == 1
    && |f.log| > 0 && f.log[0] == 0
    && f.size > 1 && IsPow2(f.size)
    && (forall k: nat {:trigger StepAt(f, k)} :: k < f.p ==> StepAt(f, k))
    && (forall k: nat {:trigger ExpAt(f, k)} :: k <= f.p ==> ExpAt(f, k))
    && (forall x: nat {:trigger LogAt(f, x)} :: 0 < x < f.size ==> LogAt(f, x))
  }

  type Gf = f: Field | IsField(f) ghost witness Gf2()

  /** The two-element field, only here so that the type `Gf` is seen to be inhabited. */
  function Gf2(): Field {
    Field(1, [1, 1], [0, 0], 2, 3)
  }

  // ---------------------------------------------------------------------------------------------
  // Multiplication
  // ---------------------------------------------------------------------------------------------

  /** Exponents count modulo the order of the generator. */
  function Red(f: Gf, k: nat): (r: nat)
    ensures r < f.p && (k < f.p ==> r == k) && (k == f.p ==> r == 0)
  {
    ModRange(k, f.p);
    k % f.p
  }

  /** A number cut to the width of the field. */
  function Cut(f: Gf, a: nat): (r: nat)
    ensures r < f.size && (a < f.size ==> r == a)
  {
    ModRange(a, f.size);
    a % f.size
  }

  lemma ModRange(a: nat, n: nat)
    requires n > 0
    ensures a % n < n && (a < n ==> a % n == a) && (a == n ==> a % n == 0)
  {
    if a == n {
      ModUnique(a, n, 1, 0);
    }
  }

  lemma ModAdd(p: nat, a: nat, b: nat)
    requires p == 1 || p == 15 || p == 255
    ensures (a % p + b) % p == (a + b) % p
  {
    if p > 1 {
      var m, s := a / p, a % p + b;
      var q, r := s / p, s % p;
      assert a == p * m + a % p && s == p * q + r && p * (m + q) == p * m + p * q;
      ModUnique(a + b, p, m + q, r);
    }
  }

  lemma RedAdd(f: Gf, a: nat, b: nat)
    ensures Red(f, Red(f, a) + b) == Red(f, a + b) == Red(f, a + Red(f, b))
  {
    ModAdd(f.p, a, b);
    ModAdd(f.p, b, a);
  }

  /** The generator to the power k. */
  function Pow(f: Gf, k: nat): (r: nat)
    ensures 0 < r < f.size
  {
    assert ExpAt(f, Red(f, k));
    f.exp[Red(f, k)]
  }

  function Log(f: Gf, x: nat): (k: nat)
    requires 0 < x < f.size
    ensures x < |f.log| && k == f.log[x] <= f.p && Pow(f, k) == x
  {
    assert LogAt(f, x);
    f.log[x]
  }

  /** Table multiplication.  Arguments are cut to the field's width, which makes it linear on all numbers. */
  function Mul(f: Gf, a: nat, b: nat): (r: nat)
    ensures r < f.size
  {
    if Cut(f, a) == 0 || Cut(f, b) == 0 then 0
    else Pow(f, Log(f, Cut(f, a)) + Log(f, Cut(f, b)))
  }

  lemma MulCut(f: Gf, a: nat, b: nat)
    ensures Mul(f, a, b) == Mul(f, Cut(f, a), Cut(f, b))
  {
    hide Cut;
    assert Cut(f, Cut(f, a)) == Cut(f, a) && Cut(f, Cut(f, b)) == Cut(f, b);
  }

  /** The table expression of the decoder, for two nonzero field elements. */
  lemma MulTable(f: Gf, a: nat, b: nat)
    requires 0 < a < f.size && 0 < b < f.size
    ensures a < |f.log| && b < |f.log| && |f.exp| == f.p + 1 > 1
    ensures Mul(f, a, b) == f.exp[(f.log[a] + f.log[b]) % f.p] != 0
  {
    hide Cut;
    assert LogAt(f, a) && LogAt(f, b);
    assert Cut(f, a) == a && Cut(f, b) == b;
  }

  /** Logarithms are unique up to the order of the generator. */
  lemma LogPow(f: Gf, k: nat)
    ensures Red(f, Log(f, Pow(f, k))) == Red(f, k)
  {
    assert ExpAt(f, Red(f, k));
    RedAdd(f, k, 0);
  }

  lemma PowEq(f: Gf, i: nat, j: nat)
    requires Pow(f, i) == Pow(f, j)
    ensures Red(f, i) == Red(f, j)
  {
    hide Pow, Log, Red;
    LogPow(f, i);
    LogPow(f, j);
  }

  lemma PowMul(f: Gf, i: nat, j: nat)
    ensures Mul(f, Pow(f, i), Pow(f, j)) == Pow(f, i + j)
  {
    hide Cut, Red, Log;
    var a, b := Pow(f, i), Pow(f, j);
    var la, lb := Log(f, a), Log(f, b);
    assert Mul(f, a, b) == Pow(f, la + lb);
    LogPow(f, i);
    LogPow(f, j);
    RedAdd(f, la, lb);
    RedAdd(f, i, lb);
    RedAdd(f, i, j);
  }

  lemma MulComm(f: Gf, a: nat, b: nat)
    ensures Mul(f, a, b) == Mul(f, b, a)
  {
    hide Cut, Red, Log;
  }

  lemma MulAssoc(f: Gf, a: nat, b: nat, c: nat)
    ensures Mul(f, Mul(f, a, b), c) == Mul(f, a, Mul(f, b, c))
  {
    var x, y, z := Cut(f, a), Cut(f, b), Cut(f, c);
    hide Cut, Red, Pow;
    if x != 0 && y != 0 && z != 0 {
      var i, j, k := Log(f, x), Log(f, y), Log(f, z);
      assert Mul(f, a, b) == Pow(f, i + j) && Mul(f, b, c) == Pow(f, j + k);
      hide Log;
      PowMul(f, i + j, k);
      PowMul(f, i, j + k);
      MulCut(f, Pow(f, i + j), c);
      MulCut(f, a, Pow(f, j + k));
      assert i + j + k == i + (j + k);
    } else {
      MulZero(f, Mul(f, a, b)); MulZero(f, Mul(f, b, c));
      MulCut(f, Mul(f, a, b), c);
      MulCut(f, a, Mul(f, b, c));
    }
  }

  lemma MulOne(f: Gf, a: nat)
    requires a < f.size
    ensures Mul(f, 1, a) == a && Mul(f, a, 1) == a
  {
    MulComm(f, 1, a);
    if a == 0 {
      MulZero(f, 1);
    } else {
      assert Pow(f, 0) == 1;
      hide Mul, Cut, Red;
      PowMul(f, 0, Log(f, a));
    }
  }

  lemma MulNonzero(f: Gf, a: nat, b: nat)
    requires a < f.size && b < f.size
    ensures Mul(f, a, b) == 0 <==> a == 0 || b == 0
  {
    hide Cut, Pow;
    assert Cut(f, a) == a && Cut(f, b) == b;
  }

  lemma MulZero(f: Gf, a: nat)
    ensures Mul(f, a, 0) == 0 && Mul(f, 0, a) == 0
  {
    hide Cut, Pow;
    assert Cut(f, 0) == 0;
  }

  lemma LogDefined(f: Gf, x: nat)
    requires x < f.size
    ensures x < |f.log| && f.log[x] <= f.p
  {
    if x > 0 {
      assert LogAt(f, x);
    }
  }

  lemma TableEntry(f: Gf, k: nat)
    requires k <= f.p
    ensures |f.exp| == f.p + 1 && f.exp[k] == Pow(f, k)
  {
  }

  lemma AddInField(f: Gf, a: nat, b: nat)
    requires a < f.size && b < f.size
    ensures Xor(a, b) < f.size
  {
    XorLess(f.size, a, b);
  }

  // Distributivity: multiplying by the k-th power of the generator is k linear steps.

  lemma StepLinear(f: Gf, a: nat, b: nat)
    requires a < f.size && b < f.size
    ensures Step(f, Xor(a, b)) == Xor(Step(f, a), Step(f, b))
  {
    hide Xor;
    XorTop(f.size / 2, a, b);
    XorDouble(a, b);
    var x, y, r := 2 * a, 2 * b, f.poly;
    XorSwap(x, r, y, r); XorSelf(r); XorZero(Xor(x, y));
    XorAssoc(x, y, r);
    XorAssoc(x, r, y); XorComm(r, y);
  }

  function StepN(f: Gf, k: nat, x: nat): (r: nat) {
    if k == 0 then x else Step(f, StepN(f, k - 1, x))
  }

  lemma StepPow(f: Gf, k: nat)
    ensures Step(f, Pow(f, k)) == Pow(f, k + 1)
  {
    hide Red;
    assert StepAt(f, Red(f, k));
    RedAdd(f, k, 1);
  }

  lemma {:induction false} StepNPow(f: Gf, k: nat, j: nat)
    ensures StepN(f, k, Pow(f, j)) == Pow(f, j + k)
  {
    if k > 0 {
      StepNPow(f, k - 1, j);
      StepPow(f, j + k - 1);
    }
  }

  lemma {:induction false} StepNZero(f: Gf, k: nat)
    ensures StepN(f, k, 0) == 0
  {
    if k > 0 {
      StepNZero(f, k - 1);
    }
  }

  lemma MulSteps(f: Gf, k: nat, x: nat)
    ensures Mul(f, Pow(f, k), x) == StepN(f, k, Cut(f, x))
  {
    hide Cut, Red, Mul, Pow, StepN;
    var y := Cut(f, x);
    MulCut(f, Pow(f, k), x);
    if y == 0 {
      MulZero(f, Pow(f, k));
      StepNZero(f, k);
    } else {
      var j := Log(f, y);
      StepNPow(f, k, j);
      PowMul(f, k, j);
    }
  }

  lemma StepNLess(f: Gf, k: nat, x: nat)
    requires x < f.size
    ensures StepN(f, k, x) < f.size
  {
    hide Mul, Pow, StepN;
    MulSteps(f, k, x);
  }

  lemma {:induction false} StepNLinear(f: Gf, k: nat, a: nat, b: nat)
    requires a < f.size && b < f.size
    ensures StepN(f, k, Xor(a, b)) == Xor(StepN(f, k, a), StepN(f, k, b))
  {
    hide Step, Xor;
    if k > 0 {
      StepNLinear(f, k - 1, a, b);
      StepNLess(f, k - 1, a);
      StepNLess(f, k - 1, b);
      StepLinear(f, StepN(f, k - 1, a), StepN(f, k - 1, b));
    }
  }

  lemma MulDistrib(f: Gf, a: nat, b: nat, c: nat)
    ensures Mul(f, a, Xor(b, c)) == Xor(Mul(f, a, b), Mul(f, a, c))
  {
    hide StepN, Xor, Pow, Cut, Mul;
    var x := Cut(f, a);
    MulCut(f, a, b); MulCut(f, a, c); MulCut(f, a, Xor(b, c));
    if x == 0 {
      MulZero(f, Cut(f, b)); MulZero(f, Cut(f, c)); MulZero(f, Cut(f, Xor(b, c)));
      XorZero(0);
    } else {
      var k := Log(f, x);
      hide Log;
      MulCut(f, x, b); MulCut(f, x, c); MulCut(f, x, Xor(b, c));
      MulSteps(f, k, b); MulSteps(f, k, c); MulSteps(f, k, Xor(b, c));
      CutXor(f, b, c);
      StepNLinear(f, k, Cut(f, b), Cut(f, c));
    }
  }

  lemma CutXor(f: Gf, b: nat, c: nat)
    ensures Cut(f, Xor(b, c)) == Xor(Cut(f, b), Cut(f, c))
  {
    XorCut(f.size, b, c);
  }

  lemma MulDistribRight(f: Gf, b: nat, c: nat, a: nat)
    ensures Mul(f, Xor(b, c), a) == Xor(Mul(f, b, a), Mul(f, c, a))
  {
    hide Xor, Mul;
    MulComm(f, Xor(b, c), a);
    MulComm(f, b, a);
    MulComm(f, c, a);
    MulDistrib(f, a, b, c);
  }

  // ---------------------------------------------------------------------------------------------
  // Inverses and powers
  // ---------------------------------------------------------------------------------------------

  /** The multiplicative inverse, by negating the logarithm. */
  function Inv(f: Gf, a: nat): (r: nat)
    requires 0 < a < f.size
    ensures 0 < r < f.size
  {
    Pow(f, f.p - Log(f, a))
  }

  lemma MulInv(f: Gf, a: nat)
    requires 0 < a < f.size
    ensures Mul(f, a, Inv(f, a)) == 1 && Mul(f, Inv(f, a), a) == 1
  {
    hide Mul;
    PowMul(f, Log(f, a), f.p - Log(f, a));
    assert Pow(f, f.p) == 1;
    MulComm(f, a, Inv(f, a));
  }

  /** A quotient, as the decoder forms it from logarithms. */
  lemma QuotientTable(f: Gf, d: nat, b: nat)
    requires 0 < b < f.size && 0 < d < f.size
    ensures b < |f.log| && d < |f.log| && |f.exp| == f.p + 1 > 1 && f.log[b] <= f.p
    ensures Mul(f, d, Inv(f, b)) == f.exp[(f.p - f.log[b] + f.log[d]) % f.p]
  {
    hide Mul;
    assert LogAt(f, b) && LogAt(f, d);
    PowMul(f, Log(f, d), f.p - Log(f, b));
  }

  /** Powers of an arbitrary element. */
  function XPow(f: Gf, x: nat, n: nat): (r: nat)
    ensures r < f.size
  {
    if n == 0 then 1 else Mul(f, x, XPow(f, x, n - 1))
  }

  lemma {:induction false} XPowNonzero(f: Gf, x: nat, n: nat)
    requires 0 < x < f.size
    ensures XPow(f, x, n) != 0
  {
    hide Mul;
    if n > 0 {
      XPowNonzero(f, x, n - 1);
      MulNonzero(f, x, XPow(f, x, n - 1));
    }
  }

  lemma {:induction false} XPowAdd(f: Gf, x: nat, m: nat, n: nat)
    ensures XPow(f, x, m + n) == Mul(f, XPow(f, x, m), XPow(f, x, n))
  {
    hide Mul;
    if m == 0 {
      MulOne(f, XPow(f, x, n));
    } else {
      XPowAdd(f, x, m - 1, n);
      MulAssoc(f, x, XPow(f, x, m - 1), XPow(f, x, n));
    }
  }

  lemma {:induction false} XPowPow(f: Gf, k: nat, n: nat)
    ensures XPow(f, Pow(f, k), n) == Pow(f, k * n)
  {
    hide Mul;
    if n == 0 {
      assert k * n == 0;
    } else {
      XPowPow(f, k, n - 1);
      assert k + k * (n - 1) == k * n;
      PowMul(f, k, k * (n - 1));
    }
  }
}
