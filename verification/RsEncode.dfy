/** The encoder's Reed-Solomon half: tables built by a loop, generator polynomial, remainder register. */
module RsEncode {
  import opened Bits
  import opened Galois
  import opened Tables
  import opened Sums
  import opened Polynomials
  import opened Syndromes

  // ---- tables ----------------------------------------------------------------------------------------------

  datatype EncoderTables = EncoderTables(exp: seq<nat>, log: seq<nat>)

  /** 512 powers of the generator, and logarithms below 255. */
  ghost predicate TablesOk(t: EncoderTables) {
    && |t.exp| == 512 && |t.log| == 256
    && (forall i: nat {:trigger t.exp[i]} :: i < 512 ==> t.exp[i] == Pow(Gf256(), i))
    && (forall x: nat {:trigger t.log[x]} :: 0 < x < 256 ==> t.log[x] < 255 && Pow(Gf256(), t.log[x]) == x)
  }

  lemma Doubling(i: nat)
    ensures var x := Pow(Gf256(), i);
      Pow(Gf256(), i + 1) == if 2 * x >= 256 then Xor(2 * x, 0x11d) else 2 * x
  {
    hide Pow, Xor;
    StepPow(Gf256(), i);
  }

  lemma EveryPower(x: nat)
    requires 0 < x < 256
    ensures exists i: nat :: i < 255 && Pow(Gf256(), i) == x
  {
    var f := Gf256();
    var k := Log(f, x);
    RedAdd(f, k, 0);
    assert Pow(f, Red(f, k)) == x;
  }

  lemma PowWraps(i: nat)
    requires i >= 255
    ensures Pow(Gf256(), i) == Pow(Gf256(), i - 255)
  {
    RedAdd(Gf256(), i - 255, 255);
  }

  /** The two tables, filled by repeated doubling. */
  method BuildTables() returns (t: EncoderTables)
    ensures TablesOk(t)
  {
    hide Pow, Xor, Gf256;
    ghost var f := Gf256();
    var exp := new nat[512](_ => 0);
    var log := new nat[256](_ => 0);
    var x: nat := 1;
    FirstPower();
    for i := 0 to 255
      invariant x == Pow(f, i)
      invariant forall k: nat :: k < i ==> exp[k] == Pow(f, k)
      invariant forall k: nat :: k < i ==> log[Pow(f, k)] == k
    {
      PowerRange(i);
      forall k: nat | k < i ensures Pow(f, k) != x {
        PowersDiffer(k, i);
      }
      exp[i] := x;
      log[x] := i;
      Doubling(i);
      x := 2 * x;
      if x >= 256 {
        x := Xor(x, 0x11d);
      }
    }
    for i := 255 to 512
      invariant forall k: nat :: k < i ==> exp[k] == Pow(f, k)
      invariant forall k: nat :: k < 255 ==> log[Pow(f, k)] == k
    {
      PowWraps(i);
      exp[i] := exp[i - 255];
    }
    t := EncoderTables(exp[..], log[..]);
    forall y: nat | 0 < y < 256 ensures t.log[y] < 255 && Pow(f, t.log[y]) == y {
      EveryPower(y);
      var k: nat :| k < 255 && Pow(f, k) == y;
      assert log[Pow(f, k)] == k;
    }
  }

  lemma FirstPower()
    ensures Pow(Gf256(), 0) == 1
  {
  }

  lemma PowerRange(i: nat)
    ensures 0 < Pow(Gf256(), i) < 256
  {
  }

  lemma PowersDiffer(k: nat, i: nat)
    requires k < i < 255
    ensures Pow(Gf256(), k) != Pow(Gf256(), i)
  {
    hide Pow;
    if Pow(Gf256(), k) == Pow(Gf256(), i) {
      PowEq(Gf256(), k, i);
    }
  }

  function GfMul(t: EncoderTables, a: nat, b: nat): (r: nat)
    requires |t.exp| == 512 && |t.log| == 256 && a < 256 && b < 256
  {
    if a == 0 || b == 0 then 0
    else if t.log[a] + t.log[b] < 512 then t.exp[t.log[a] + t.log[b]] else 0
  }

  /** The encoder and the decoder multiply alike. */
  lemma GfMulIsMul(t: EncoderTables, a: nat, b: nat)
    requires TablesOk(t) && a < 256 && b < 256
    ensures GfMul(t, a, b) == Mul(Gf256(), a, b)
  {
    hide Mul, Pow;
    var f := Gf256();
    if a == 0 || b == 0 {
      MulZero(f, a); MulZero(f, b);
    } else {
      PowMul(f, t.log[a], t.log[b]);
    }
  }

  // ---- generator polynomial -----------------------------------------------------------------------------------

  /** Monic of the given degree and zero at the first `degree` powers of the generator. */
  ghost predicate IsGenerator(g: seq<nat>, degree: nat) {
    var f := Gf256();
    && |g| == degree + 1 && g[degree] == 1 && InFieldAll(f, g)
    && forall i: nat :: i < degree ==> Eval(f, g, Pow(f, i), degree + 1) == 0
  }

  /** (z + a) p(z), lowest degree first. */
  ghost predicate TimesRoot(f: Gf, p: seq<nat>, a: nat, r: seq<nat>) {
    |r| == |p| + 1 && forall j :: 0 <= j < |r| ==> r[j] == Xor(Mul(f, C(p, j), a), C(p, j - 1))
  }

  /** The sum of no terms. */
  lemma EvalNone(f: Gf, p: seq<nat>, x: nat)
    ensures Eval(f, p, x, 0) == 0
  {
  }

  /** One more term. */
  lemma EvalNext(f: Gf, p: seq<nat>, x: nat, n: nat)
    ensures Eval(f, p, x, n + 1) == Xor(Eval(f, p, x, n), Mul(f, C(p, n), XPow(f, x, n)))
  {
    hide Xor, Mul;
  }

  lemma XPowNext(f: Gf, x: nat, n: nat)
    ensures XPow(f, x, n + 1) == Mul(f, x, XPow(f, x, n))
  {
    hide Mul;
  }

  lemma {:induction false} TimesRootEval(f: Gf, p: seq<nat>, a: nat, r: seq<nat>, x: nat, n: nat)
    requires TimesRoot(f, p, a, r) && n <= |r| && InFieldAll(f, p)
    ensures Eval(f, r, x, n) == Xor(Mul(f, a, Eval(f, p, x, n)), if n == 0 then 0 else Mul(f, x, Eval(f, p, x, n - 1)))
  {
    hide Xor, Mul, Pow, Eval, XPow;
    if n == 0 {
      EvalNone(f, r, x);
      EvalNone(f, p, x);
      MulZero(f, a);
      XorZero(0);
    } else {
      var m := n - 1;
      TimesRootEval(f, p, a, r, x, m);
      var w := XPow(f, x, m);
      EvalNext(f, r, x, m);
      EvalNext(f, p, x, m);
      assert r[m] == Xor(Mul(f, C(p, m), a), C(p, m - 1));
      MulDistribRight(f, Mul(f, C(p, m), a), C(p, m - 1), w);
      MulComm(f, C(p, m), a);
      MulAssoc(f, a, C(p, m), w);
      MulDistrib(f, a, Eval(f, p, x, m), Mul(f, C(p, m), w));
      if m == 0 {
        EvalNone(f, p, x);
        MulZero(f, w);
        MulZero(f, x);
        XorZero(Mul(f, a, Eval(f, p, x, m)));
        XorZero(Mul(f, a, Mul(f, C(p, m), w)));
        XorZero(Mul(f, a, Eval(f, p, x, n)));
      } else {
        var u := XPow(f, x, m - 1);
        EvalNext(f, p, x, m - 1);
        XPowNext(f, x, m - 1);
        MulAssoc(f, C(p, m - 1), x, u);
        MulComm(f, C(p, m - 1), x);
        MulAssoc(f, x, C(p, m - 1), u);
        MulDistrib(f, x, Eval(f, p, x, m - 1), Mul(f, C(p, m - 1), u));
        XorSwap(Mul(f, a, Eval(f, p, x, m)), Mul(f, x, Eval(f, p, x, m - 1)),
                Mul(f, a, Mul(f, C(p, m), w)), Mul(f, x, Mul(f, C(p, m - 1), u)));
      }
    }
  }

  /** Multiplying a generator by one more root gives the generator of the next degree. */
  lemma GeneratorGrows(p: seq<nat>, i: nat, r: seq<nat>)
    requires IsGenerator(p, i) && TimesRoot(Gf256(), p, Pow(Gf256(), i), r)
    ensures IsGenerator(r, i + 1)
  {
    hide Xor, Mul, Pow, Gf256, Eval, TimesRoot;
    var f := Gf256();
    var a := Pow(f, i);
    GrownShape(f, p, a, r, i);
    forall k: nat | k < i + 1 ensures Eval(f, r, Pow(f, k), i + 2) == 0 {
      GrownRoot(f, p, i, r, k);
    }
  }

  lemma GrownShape(f: Gf, p: seq<nat>, a: nat, r: seq<nat>, i: nat)
    requires TimesRoot(f, p, a, r) && InFieldAll(f, p) && |p| == i + 1 && p[i] == 1
    ensures |r| == i + 2 && r[i + 1] == 1 && InFieldAll(f, r)
  {
    hide Xor, Mul, IsField;
    FieldBig(f);
    forall j | 0 <= j < |r| ensures r[j] < f.size {
      AddInField(f, Mul(f, C(p, j), a), C(p, j - 1));
    }
    MulZero(f, a);
    XorZero(1);
    assert r[i + 1] == Xor(Mul(f, C(p, i + 1), a), C(p, i));
  }

  lemma GrownRoot(f: Gf, p: seq<nat>, i: nat, r: seq<nat>, k: nat)
    requires |p| == i + 1 && InFieldAll(f, p) && TimesRoot(f, p, Pow(f, i), r) && k <= i
    requires k < i ==> Eval(f, p, Pow(f, k), i + 1) == 0
    ensures Eval(f, r, Pow(f, k), i + 2) == 0
  {
    hide Xor, Mul, Pow, IsField, Eval;
    var a, x := Pow(f, i), Pow(f, k);
    assert |r| == i + 2;
    TimesRootEval(f, p, a, r, x, i + 2);
    EvalExtend(f, p, x, i + 1, i + 2);
    MulZero(f, a); MulZero(f, x);
    XorSelf(Mul(f, a, Eval(f, p, x, i + 1)));
  }

  lemma FieldBig(f: Gf)
    ensures f.size > 1
  {
  }

  lemma GeneratorStart()
    ensures IsGenerator([1], 0)
  {
  }

  /** One multiplication by (z + exp[i]). */
  method NextGenerator(t: EncoderTables, poly: array<nat>, i: nat) returns (next: array<nat>)
    requires TablesOk(t) && i < 512 && poly.Length > 0 && InFieldAll(Gf256(), poly[..])
    ensures fresh(next) && TimesRoot(Gf256(), poly[..], Pow(Gf256(), i), next[..])
  {
    hide Xor, Mul, Pow, Gf256, GfMul, TablesOk;
    ghost var f, p := Gf256(), poly[..];
    ghost var a := Pow(f, i);
    TablesFacts(t, i);
    next := new nat[poly.Length + 1](_ => 0);
    XorZero(0);
    for j := 0 to poly.Length
      invariant poly[..] == p
      invariant forall k :: 0 <= k < next.Length ==> next[k] == Partial(f, p, a, j, k)
    {
      GfMulIsMul(t, poly[j], t.exp[i]);
      XorZero(C(p, j - 1));
      XorComm(Mul(f, p[j], a), C(p, j - 1));
      assert C(p, j) == p[j];
      next[j] := Xor(next[j], GfMul(t, poly[j], t.exp[i]));
      next[j + 1] := Xor(next[j + 1], poly[j]);
    }
    MulZero(f, a);
  }

  /** Coefficient k of (z + a) p(z) once the coefficients of p below j have been spread. */
  function Partial(f: Gf, p: seq<nat>, a: nat, j: nat, k: nat): nat {
    Xor(if k < j then Mul(f, C(p, k), a) else 0, if k <= j then C(p, k - 1) else 0)
  }

  lemma TablesFacts(t: EncoderTables, i: nat)
    requires TablesOk(t) && i < 512
    ensures |t.exp| == 512 && |t.log| == 256 && t.exp[i] == Pow(Gf256(), i) < 256
  {
  }

  method RsGenerator(t: EncoderTables, degree: nat) returns (poly: array<nat>)
    requires TablesOk(t) && degree < 256
    ensures fresh(poly) && IsGenerator(poly[..], degree)
  {
    hide TimesRoot, TablesOk, Gf256;
    poly := new nat[1](_ => 1);
    assert poly[..] == [1];
    GeneratorStart();
    for i := 0 to degree
      invariant fresh(poly) && IsGenerator(poly[..], i)
    {
      ghost var p := poly[..];
      var next := NextGenerator(t, poly, i);
      GeneratorGrows(p, i, next[..]);
      poly := next;
    }
  }

  // ---- the remainder register ------------------------------------------------------------------------------------

  /** A byte string as a polynomial, first byte leading, evaluated at x. */
  function Horner(f: Gf, b: seq<nat>, x: nat): nat {
    if b == [] then 0 else Xor(Mul(f, x, Horner(f, b[..|b| - 1], x)), b[|b| - 1])
  }

  lemma {:induction false} HornerInField(f: Gf, b: seq<nat>, x: nat)
    requires InFieldAll(f, b)
    ensures Horner(f, b, x) < f.size
  {
    hide Xor, Mul;
    FieldBig(f);
    if b != [] {
      AddInField(f, Mul(f, x, Horner(f, b[..|b| - 1], x)), b[|b| - 1]);
    }
  }

  /** Term j + 1 of a block is x times term j of the block without its last byte. */
  lemma SyndromeTermStep(f: Gf, b: seq<nat>, i: nat, j: nat)
    requires j + 1 < |b|
    ensures SyndromeTerm(f, b, i)(1 + j) == Mul(f, Pow(f, i), SyndromeTerm(f, b[..|b| - 1], i)(j))
  {
    hide Xor, Mul, Pow, IsField;
    var x, w, c := Pow(f, i), Pow(f, i * j), b[|b| - 2 - j];
    assert SyndromeTerm(f, b, i)(1 + j) == Mul(f, c, Pow(f, i * (1 + j)));
    assert SyndromeTerm(f, b[..|b| - 1], i)(j) == Mul(f, c, w);
    assert i * (1 + j) == i + i * j;
    PowMul(f, i, i * j);
    MulAssoc(f, c, x, w);
    MulComm(f, c, x);
    MulAssoc(f, x, c, w);
  }

  lemma {:induction false} SyndromeIsHorner(f: Gf, b: seq<nat>, i: nat)
    requires InFieldAll(f, b)
    ensures Syndrome(f, b, i) == Horner(f, b, Pow(f, i))
  {
    hide Xor, Mul, Pow, IsField, InFieldAll;
    if b != [] {
      assert b[|b| - 1] < f.size && InFieldAll(f, b[..|b| - 1]) by { PrefixInField(f, b); }
      var n := |b|;
      var p := b[..n - 1];
      var x := Pow(f, i);
      var g, h := SyndromeTerm(f, b, i), SyndromeTerm(f, p, i);
      SyndromeIsHorner(f, p, i);
      var rest: nat -> nat := (j: nat) => g(1 + j);
      SumSplit(1, n - 1, g, rest);
      forall j: nat | j < n - 1 ensures rest(j) == Mul(f, x, h(j)) {
        SyndromeTermStep(f, b, i, j);
      }
      SumScale(f, n - 1, x, h, rest);
      PowZeroIsOne(f);
      assert i * 0 == 0;
      assert g(0) == Mul(f, b[n - 1], 1);
      MulOne(f, b[n - 1]);
      XorZero(b[n - 1]);
      assert Sum(1, g) == Xor(Sum(0, g), g(0));
      XorComm(b[n - 1], Mul(f, x, Horner(f, p, x)));
    }
  }

  lemma PrefixInField(f: Field, b: seq<nat>)
    requires b != [] && InFieldAll(f, b)
    ensures b[|b| - 1] < f.size && InFieldAll(f, b[..|b| - 1])
  {
  }

  lemma PowZeroIsOne(f: Gf)
    ensures Pow(f, 0) == 1
  {
  }

  lemma {:induction false} HornerAppend(f: Gf, a: seq<nat>, b: seq<nat>, x: nat)
    requires InFieldAll(f, a)
    ensures Horner(f, a + b, x) == Xor(Mul(f, Horner(f, a, x), XPow(f, x, |b|)), Horner(f, b, x))
  {
    hide Xor, Mul, IsField;
    var A := Horner(f, a, x);
    if b == [] {
      assert a + b == a;
      HornerInField(f, a, x);
      MulOne(f, A);
      XorZero(A);
    } else {
      var m := |b| - 1;
      var b', w := b[..m], XPow(f, x, m);
      assert (a + b)[..|a + b| - 1] == a + b';
      HornerAppend(f, a, b', x);
      var B := Horner(f, b', x);
      MulDistrib(f, x, Mul(f, A, w), B);
      MulAssoc(f, x, A, w); MulComm(f, x, A); MulAssoc(f, A, x, w);
      XorAssoc(Mul(f, A, XPow(f, x, |b|)), Mul(f, x, B), b[m]);
    }
  }

  /** The first n coefficients of p, highest first. */
  function Reversed(p: seq<nat>, n: nat): (r: seq<nat>)
    requires n <= |p|
    ensures |r| == n && forall i :: 0 <= i < n ==> r[i] == p[n - 1 - i]
  {
    seq(n, i requires 0 <= i < n => p[n - 1 - i])
  }

  lemma {:induction false} HornerReversed(f: Gf, p: seq<nat>, n: nat, x: nat)
    requires InFieldAll(f, p) && n <= |p|
    ensures Horner(f, Reversed(p, n), x) == Eval(f, p, x, n)
  {
    hide Xor, Mul, IsField, Eval, EvalTerm, XPow;
    if n == 0 {
      EvalNone(f, p, x);
    } else {
      hide Horner;
      var c := p[n - 1];
      assert Reversed(p, n) == [c] + Reversed(p, n - 1);
      HornerReversed(f, p, n - 1, x);
      HornerAppend(f, [c], Reversed(p, n - 1), x);
      HornerOne(f, c, x);
      EvalNext(f, p, x, n - 1);
      XorComm(Mul(f, c, XPow(f, x, n - 1)), Eval(f, p, x, n - 1));
    }
  }

  lemma HornerOne(f: Gf, c: nat, x: nat)
    ensures Horner(f, [c], x) == c
  {
    hide Xor, Mul, IsField;
    MulZero(f, x);
    XorZero(c);
    assert [c][..0] == [];
  }

  /** The register after a byte: shifted left, and factor times the generator's tail subtracted. */
  ghost predicate Shifted(f: Gf, r: seq<nat>, g: seq<nat>, factor: nat, r': seq<nat>) {
    |r| == |r'| == |g| - 1
    && forall i :: 0 <= i < |r| ==> r'[i] == Xor(C(r, i + 1), Mul(f, g[|r| - 1 - i], factor))
  }

  /** Horner is linear in the string. */
  lemma {:induction false} HornerXor(f: Gf, a: seq<nat>, b: seq<nat>, c: nat, r: seq<nat>, x: nat)
    requires |a| == |b| == |r| && forall i :: 0 <= i < |r| ==> r[i] == Xor(a[i], Mul(f, b[i], c))
    ensures Horner(f, r, x) == Xor(Horner(f, a, x), Mul(f, Horner(f, b, x), c))
  {
    hide Xor, Mul, IsField;
    if r == [] {
      MulZero(f, c);
      XorZero(0);
    } else {
      var m := |r| - 1;
      HornerXor(f, a[..m], b[..m], c, r[..m], x);
      var A, B := Horner(f, a[..m], x), Horner(f, b[..m], x);
      MulDistrib(f, x, A, Mul(f, B, c));
      MulAssoc(f, x, B, c);
      MulDistribRight(f, Mul(f, x, B), b[m], c);
      XorSwap(Mul(f, x, A), Mul(f, Mul(f, x, B), c), a[m], Mul(f, b[m], c));
    }
  }

  /** At a root x of the generator the register stays congruent to message times x^n. */
  lemma RegisterStep(f: Gf, g: seq<nat>, n: nat, r: seq<nat>, byte: nat, r': seq<nat>, x: nat)
    requires n > 0 && |g| == n + 1 && g[n] == 1 && InFieldAll(f, g) && Eval(f, g, x, n + 1) == 0
    requires |r| == n && InFieldAll(f, r) && byte < f.size
    requires Shifted(f, r, g, Xor(byte, r[0]), r')
    ensures Horner(f, r', x) == Xor(Mul(f, x, Horner(f, r, x)), Mul(f, byte, XPow(f, x, n)))
  {
    hide Xor, Mul, IsField, Eval, XPow;
    var w, factor, H := XPow(f, x, n), Xor(byte, r[0]), Horner(f, r, x);
    var shifted, tail := r[1..] + [0], Reversed(g, n);
    hide Horner;
    HornerXor(f, shifted, tail, factor, r', x);
    HornerReversed(f, g, n, x);
    LeadingTerm(f, g, n, x);
    assert Horner(f, tail, x) == w;
    ShiftLeft(f, r, x);
    var S := Horner(f, shifted, x);
    assert S == Xor(Mul(f, x, H), Mul(f, r[0], w));
    MulComm(f, w, factor);
    MulDistribRight(f, byte, r[0], w);
    XorComm(Mul(f, byte, w), Mul(f, r[0], w));
    XorAssoc(Mul(f, x, H), Mul(f, r[0], w), Xor(Mul(f, r[0], w), Mul(f, byte, w)));
    XorCancel(Mul(f, byte, w), Mul(f, r[0], w));
  }

  lemma LeadingTerm(f: Gf, g: seq<nat>, n: nat, x: nat)
    requires |g| == n + 1 && g[n] == 1 && InFieldAll(f, g) && Eval(f, g, x, n + 1) == 0
    ensures Eval(f, g, x, n) == XPow(f, x, n)
  {
    hide Xor, Mul, IsField, XPow;
    assert EvalTerm(f, g, x)(n) == Mul(f, 1, XPow(f, x, n));
    MulOne(f, XPow(f, x, n));
    XorEq(Eval(f, g, x, n), XPow(f, x, n));
  }

  lemma ShiftLeft(f: Gf, r: seq<nat>, x: nat)
    requires |r| > 0 && InFieldAll(f, r)
    ensures Horner(f, r[1..] + [0], x) == Xor(Mul(f, x, Horner(f, r, x)), Mul(f, r[0], XPow(f, x, |r|)))
  {
    hide Xor, Mul, IsField, XPow;
    var s := r[1..] + [0];
    assert (r + [0])[..|r|] == r;
    assert Horner(f, r + [0], x) == Xor(Mul(f, x, Horner(f, r, x)), 0);
    XorZero(Mul(f, x, Horner(f, r, x)));
    assert r + [0] == [r[0]] + s;
    hide Horner;
    HornerAppend(f, [r[0]], s, x);
    HornerOne(f, r[0], x);
    XorCancel(Horner(f, s, x), Mul(f, r[0], XPow(f, x, |r|)));
    XorComm(Horner(f, s, x), Mul(f, r[0], XPow(f, x, |r|)));
  }

  /** rem is the remainder of the message so far: congruent to it at every root of the generator. */
  ghost predicate IsRemainder(message: seq<nat>, rem: seq<nat>, degree: nat) {
    var f := Gf256();
    |rem| == degree && InFieldAll(f, rem)
    && forall i: nat {:trigger Pow(f, i)} :: i < degree ==>
        Mul(f, Horner(f, message, Pow(f, i)), XPow(f, Pow(f, i), degree)) == Horner(f, rem, Pow(f, i))
  }

  lemma RemainderStep(g: seq<nat>, degree: nat, message: seq<nat>, r: seq<nat>, byte: nat, r': seq<nat>)
    requires degree > 0 && IsGenerator(g, degree) && IsRemainder(message, r, degree) && byte < 256
    requires Shifted(Gf256(), r, g, Xor(byte, r[0]), r')
    ensures IsRemainder(message + [byte], r', degree)
  {
    hide Xor, Mul, IsField, Eval, XPow, Horner, Gf256, Pow;
    var f := Gf256();
    forall i | 0 <= i < degree ensures r'[i] < f.size {
      FieldBig(f);
      AddInField(f, C(r, i + 1), Mul(f, g[degree - 1 - i], Xor(byte, r[0])));
    }
    forall i: nat {:trigger Pow(f, i)} | i < degree
      ensures Mul(f, Horner(f, message + [byte], Pow(f, i)), XPow(f, Pow(f, i), degree)) == Horner(f, r', Pow(f, i))
    {
      var x := Pow(f, i);
      RegisterStep(f, g, degree, r, byte, r', x);
      MessageStep(f, message, byte, x, XPow(f, x, degree));
    }
  }

  lemma MessageStep(f: Gf, message: seq<nat>, byte: nat, x: nat, w: nat)
    ensures Mul(f, Horner(f, message + [byte], x), w)
         == Xor(Mul(f, x, Mul(f, Horner(f, message, x), w)), Mul(f, byte, w))
  {
    hide Xor, Mul, IsField;
    assert (message + [byte])[..|message|] == message;
    var M := Horner(f, message, x);
    MulDistribRight(f, Mul(f, x, M), byte, w);
    MulAssoc(f, x, M, w);
  }

  /** Message followed by remainder is a codeword. */
  lemma RemainderIsParity(message: seq<nat>, rem: seq<nat>, degree: nat)
    requires IsRemainder(message, rem, degree) && InFieldAll(Gf256(), message)
    ensures Codeword(Gf256(), message + rem, degree)
  {
    hide Xor, Mul, IsField, Eval, XPow, Horner, Pow, Gf256, Syndrome;
    var f := Gf256();
    assert InFieldAll(f, message + rem);
    forall i: nat | i < degree ensures Syndrome(f, message + rem, i) == 0 {
      var x := Pow(f, i);
      SyndromeIsHorner(f, message + rem, i);
      HornerAppend(f, message, rem, x);
      XorSelf(Horner(f, rem, x));
    }
  }

  lemma StartRemainder(degree: nat, zeros: seq<nat>)
    requires |zeros| == degree && forall i :: 0 <= i < degree ==> zeros[i] == 0
    ensures IsRemainder([], zeros, degree)
  {
    hide Xor, Mul, IsField, Eval, XPow, Pow, Gf256;
    var f := Gf256();
    FieldBig(f);
    forall i: nat {:trigger Pow(f, i)} | i < degree
      ensures Mul(f, Horner(f, [], Pow(f, i)), XPow(f, Pow(f, i), degree)) == Horner(f, zeros, Pow(f, i))
    {
      HornerZeros(f, zeros, Pow(f, i));
      MulZero(f, XPow(f, Pow(f, i), degree));
    }
  }

  lemma {:induction false} HornerZeros(f: Gf, z: seq<nat>, x: nat)
    requires forall i :: 0 <= i < |z| ==> z[i] == 0
    ensures Horner(f, z, x) == 0
  {
    hide Xor, Mul, IsField;
    if z != [] {
      HornerZeros(f, z[..|z| - 1], x);
      MulZero(f, x);
      XorZero(0);
    }
  }

  /** The parity of a data block: data followed by it is a codeword. */
  method RsEncode(t: EncoderTables, data: seq<nat>, degree: nat) returns (rem: array<nat>)
    requires TablesOk(t) && 1 <= degree < 256 && InFieldAll(Gf256(), data)
    ensures fresh(rem) && rem.Length == degree && InFieldAll(Gf256(), rem[..])
    ensures Codeword(Gf256(), data + rem[..], degree)
  {
    hide Xor, Mul, IsField, Eval, XPow, Pow, Gf256, GfMul, TablesOk, Horner, IsGenerator, IsRemainder;
    var gen := RsGenerator(t, degree);
    ghost var f, g := Gf256(), gen[..];
    GeneratorShape(g, degree);
    rem := new nat[degree](_ => 0);
    StartRemainder(degree, rem[..]);
    for k := 0 to |data|
      invariant fresh(rem) && rem.Length == degree && gen[..] == g
      invariant IsRemainder(data[..k], rem[..], degree)
    {
      ghost var r := rem[..];
      RemainderShape(data[..k], r, degree);
      var factor := Xor(data[k], rem[0]);
      AddInField(f, data[k], rem[0]);
      ShiftRegister(t, gen, rem, factor);
      RemainderStep(g, degree, data[..k], r, data[k], rem[..]);
      assert data[..k] + [data[k]] == data[..k + 1];
    }
    assert data[..|data|] == data;
    RemainderShape(data, rem[..], degree);
    RemainderIsParity(data, rem[..], degree);
  }

  lemma GeneratorShape(g: seq<nat>, degree: nat)
    requires IsGenerator(g, degree)
    ensures |g| == degree + 1 && InFieldAll(Gf256(), g)
  {
  }

  lemma RemainderShape(message: seq<nat>, rem: seq<nat>, degree: nat)
    requires IsRemainder(message, rem, degree)
    ensures |rem| == degree && InFieldAll(Gf256(), rem)
  {
  }

  /** Moves every byte one place to the front; the last place keeps its byte. */
  method CopyDown(rem: array<nat>)
    requires rem.Length > 0
    modifies rem
    ensures rem[..rem.Length - 1] == old(rem[1..])
  {
    ghost var r := rem[..];
    for i := 0 to rem.Length - 1
      invariant rem[..i] == r[1..i + 1] && rem[i..] == r[i..]
    {
      assert rem[i..][1] == r[i..][1];
      rem[i] := rem[i + 1];
    }
  }

  /** Shifts the register left by one byte and subtracts factor times the generator. */
  method ShiftRegister(t: EncoderTables, gen: array<nat>, rem: array<nat>, factor: nat)
    requires TablesOk(t) && gen != rem && gen.Length == rem.Length + 1 && rem.Length > 0 && factor < 256
    requires InFieldAll(Gf256(), gen[..]) && InFieldAll(Gf256(), rem[..])
    modifies rem
    ensures Shifted(Gf256(), old(rem[..]), gen[..], factor, rem[..])
  {
    hide Xor, Mul, Pow, IsField, GfMul, TablesOk, Gf256;
    ghost var f, r, g := Gf256(), rem[..], gen[..];
    var n := rem.Length;
    TablesFacts(t, 0);
    CopyDown(rem);
    rem[n - 1] := 0;
    assert rem[..] == r[1..] + [0];
    for i := 0 to n
      invariant gen[..] == g
      invariant forall k :: 0 <= k < n ==>
        rem[k] == if k < i then Xor(C(r, k + 1), Mul(f, g[n - 1 - k], factor)) else C(r, k + 1)
    {
      GfMulIsMul(t, gen[n - 1 - i], factor);
      rem[i] := Xor(rem[i], GfMul(t, gen[n - 1 - i], factor));
    }
  }
}
