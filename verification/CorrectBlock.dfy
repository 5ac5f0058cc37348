/** Reed-Solomon repair of one block in place, as the decoder does it, over the field of 256 elements. */
module CorrectBlock {
  import opened Bits
  import opened Galois
  import opened Sums
  import opened Polynomials
  import opened Recurrences
  import opened ErrorTheory
  import opened BerlekampMassey
  import opened ErrorLocation
  import opened Forney
  import opened Syndromes

  // ---- the loops --------------------------------------------------------------------------------------------

  /** Evaluates a 64-entry polynomial. */
  method PolyEval(s: array<nat>, x: nat, f: Gf) returns (sum: nat)
    requires s.Length == MAX_POLY && InFieldAll(f, s[..]) && x < f.size
    ensures sum == Eval(f, s[..], x, MAX_POLY)
  {
    hide Xor, Mul, IsField, XPow, Pow;
    ghost var term := EvalTerm(f, s[..], x);
    sum := 0;
    LogDefined(f, x);
    var logX := f.log[x];
    if x == 0 {
      EvalAtZero(f, s[..]);
      return s[0];
    }
    for i := 0 to MAX_POLY
      invariant sum == Sum(i, term)
    {
      var c := s[i];
      assert term(i) == Mul(f, c, XPow(f, x, i));
      if c == 0 {
        MulZero(f, XPow(f, x, i));
        XorZero(sum);
      } else {
        TablePower(f, c, x, i);
        sum := Xor(sum, f.exp[(f.log[c] + logX * i) % f.p]);
      }
    }
  }

  lemma EvalAtZero(f: Gf, s: seq<nat>)
    requires |s| == MAX_POLY && InFieldAll(f, s)
    ensures Eval(f, s, 0, MAX_POLY) == s[0]
  {
    hide Xor, Mul, IsField;
    var g := EvalTerm(f, s, 0);
    forall i: nat | i < MAX_POLY && i != 0 ensures g(i) == 0 {
      MulZero(f, XPow(f, 0, i - 1));
      MulZero(f, C(s, i));
    }
    SumSingle(MAX_POLY, 0, g);
    MulOne(f, s[0]);
  }

  /** c x^i from logarithms. */
  lemma TablePower(f: Gf, c: nat, x: nat, i: nat)
    requires 0 < c < f.size && 0 < x < f.size
    ensures c < |f.log| && x < |f.log| && f.p > 0 && |f.exp| == f.p + 1
    ensures (f.log[c] + f.log[x] * i) % f.p < |f.exp|
    ensures f.exp[(f.log[c] + f.log[x] * i) % f.p] == Mul(f, c, XPow(f, x, i))
  {
    hide Xor, Mul, XPow;
    var lc, lx := Log(f, c), Log(f, x);
    XPowPow(f, lx, i);
    PowMul(f, lc, lx * i);
    ModRange(lc + lx * i, f.p);
  }

  /** Accumulates syndrome i of data[off..off + bs] in s[i]. */
  method OneSyndrome(data: array<nat>, off: nat, bs: nat, i: nat, s: array<nat>, f: Gf)
    requires off + bs <= data.Length && i < s.Length && s != data && s[i] == 0
    requires InFieldAll(f, data[off..off + bs])
    modifies s
    ensures s[..] == old(s[..])[i := Syndrome(f, data[off..off + bs], i)]
  {
    hide Xor, Mul, IsField, XPow, Pow;
    ghost var block := data[off..off + bs];
    for j := 0 to bs
      invariant data[off..off + bs] == block
      invariant s[i] == Sum(j, SyndromeTerm(f, block, i))
      invariant s[..] == old(s[..])[i := s[i]]
    {
      var c := data[off + bs - j - 1];
      assert c == block[bs - 1 - j];
      assert SyndromeTerm(f, block, i)(j) == Mul(f, c, Pow(f, i * j));
      if c == 0 {
        MulZero(f, Pow(f, i * j));
        XorZero(s[i]);
      } else {
        SyndromeTable(f, c, i * j);
        s[i] := Xor(s[i], f.exp[(f.log[c] + i * j) % f.p]);
      }
    }
  }

  method Zero(a: array<nat>)
    modifies a
    ensures forall k :: 0 <= k < a.Length ==> a[k] == 0
  {
    for k := 0 to a.Length
      invariant forall l :: 0 <= l < k ==> a[l] == 0
    {
      a[k] := 0;
    }
  }

  /** Fills s with the npar syndromes of data[off..off + bs]; true when one of them is not zero. */
  method BlockSyndromes(data: array<nat>, off: nat, bs: nat, npar: nat, s: array<nat>, f: Gf) returns (nonzero: bool)
    requires off + bs <= data.Length && npar < MAX_POLY && s.Length == MAX_POLY && s != data
    requires InFieldAll(f, data[off..off + bs])
    modifies s
    ensures forall i :: 0 <= i < MAX_POLY ==> s[i] == if i < npar then Syndrome(f, data[off..off + bs], i) else 0
    ensures nonzero <==> !Codeword(f, data[off..off + bs], npar)
  {
    hide Xor, Mul, IsField, Syndrome;
    ghost var block := data[off..off + bs];
    nonzero := false;
    Zero(s);
    for i := 0 to npar
      invariant data[off..off + bs] == block
      invariant forall k :: 0 <= k < MAX_POLY ==> s[k] == if k < i then Syndrome(f, block, k) else 0
      invariant nonzero <==> exists k :: 0 <= k < i && s[k] != 0
    {
      OneSyndrome(data, off, bs, i, s, f);
      if s[i] != 0 {
        nonzero := true;
      }
    }
    if nonzero {
      var k :| 0 <= k < npar && s[k] != 0;
      assert Syndrome(f, block, k) != 0;
    }
  }

  lemma SyndromeTable(f: Gf, c: nat, k: nat)
    requires 0 < c < f.size
    ensures c < |f.log| && f.p > 0 && |f.exp| == f.p + 1 && (f.log[c] + k) % f.p < |f.exp|
    ensures f.exp[(f.log[c] + k) % f.p] == Mul(f, c, Pow(f, k))
  {
    hide Xor, Mul;
    PowMul(f, Log(f, c), k);
    ModRange(f.log[c] + k, f.p);
  }

  /** Adds sigma[i] times the shifted syndromes into omega, from i up to n. */
  method ElocRow(omega: array<nat>, s: array<nat>, a: nat, i: nat, n: nat, f: Gf)
    requires omega.Length == s.Length == MAX_POLY && n + 1 < MAX_POLY && i < n && omega != s
    requires InFieldAll(f, s[..]) && a < f.size
    modifies omega
    ensures forall k :: 0 <= k < MAX_POLY ==>
      omega[k] == if i <= k < n then Xor(old(omega[k]), Mul(f, a, s[k - i + 1])) else old(omega[k])
  {
    hide Xor, Mul, IsField;
    LogDefined(f, a);
    var logA := f.log[a];
    if a == 0 {
      forall k | i <= k < n ensures omega[k] == Xor(omega[k], Mul(f, a, s[k - i + 1])) {
        MulZero(f, s[k - i + 1]);
        XorZero(omega[k]);
      }
      return;
    }
    var j := 0;
    while j + 1 < MAX_POLY
      invariant 0 <= j <= n - i
      invariant forall k :: 0 <= k < MAX_POLY ==>
        omega[k] == if i <= k < i + j then Xor(old(omega[k]), Mul(f, a, s[k - i + 1])) else old(omega[k])
    {
      var b := s[j + 1];
      if i + j >= n {
        break;
      }
      if b == 0 {
        MulZero(f, a);
        XorZero(omega[i + j]);
      } else {
        MulTable(f, a, b);
        omega[i + j] := Xor(omega[i + j], f.exp[(logA + f.log[b]) % f.p]);
      }
      j := j + 1;
    }
  }

  /** The error evaluator: the low n coefficients of sigma times the syndromes shifted by one. */
  method ElocPoly(omega: array<nat>, s: array<nat>, sigma: array<nat>, n: nat, f: Gf)
    requires omega.Length == s.Length == sigma.Length == MAX_POLY && n + 1 < MAX_POLY
    requires omega != s && omega != sigma
    requires InFieldAll(f, s[..]) && InFieldAll(f, sigma[..])
    modifies omega
    ensures forall k :: 0 <= k < MAX_POLY ==> omega[k] == if k < n then Conv(f, sigma[..], s[1..], k) else 0
  {
    hide Xor, Mul, IsField;
    Zero(omega);
    ghost var sg, s1 := sigma[..], s[1..];
    for i := 0 to n
      invariant sigma[..] == sg && s[1..] == s1
      invariant forall k :: 0 <= k < MAX_POLY ==> omega[k] == if k < n then ConvUpTo(f, sg, s1, k, i) else 0
    {
      ghost var before := omega[..];
      ElocRow(omega, s, sigma[i], i, n, f);
      forall k | 0 <= k < MAX_POLY ensures omega[k] == if k < n then ConvUpTo(f, sg, s1, k, i + 1) else 0 {
        if i <= k < n {
          assert s1[k - i] == s[k - i + 1];
          ConvOneMore(f, sg, s1, k, i);
        }
      }
    }
  }

  /** The first i terms of a convolution, as far as there are so many. */
  function ConvUpTo(f: Gf, p: seq<nat>, s: seq<nat>, k: nat, i: nat): nat {
    Sum(if i <= k then i else k + 1, ConvTerm(f, p, s, k))
  }

  lemma ConvOneMore(f: Gf, p: seq<nat>, s: seq<nat>, k: nat, i: nat)
    requires i <= k && i < |p| && k - i < |s|
    ensures ConvUpTo(f, p, s, k, i + 1) == Xor(ConvUpTo(f, p, s, k, i), Mul(f, p[i], s[k - i]))
  {
    assert ConvTerm(f, p, s, k)(i) == Mul(f, p[i], s[k - i]);
  }

  // ---- what the repair loop writes, as a function ------------------------------------------------------------

  /** The polynomials the repair loop works with. */
  ghost predicate Prepared(f: Gf, r: seq<nat>, npar: nat, sigma: seq<nat>, d: seq<nat>, w: seq<nat>) {
    && npar < MAX_POLY
    && |w| == MAX_POLY && InFieldAll(f, w)
    && IsDerivative(d, sigma) && InFieldAll(f, d)
    && exists s: seq<nat>, L: nat ::
        && |s| == MAX_POLY
        && (forall i :: 0 <= i < MAX_POLY ==> s[i] == if i < npar then Syndrome(f, r, i) else 0)
        && Shortest(f, sigma, L, s, npar)
        && forall k :: 0 <= k < MAX_POLY ==> w[k] == if k < npar - 1 then Conv(f, sigma, s[1..], k) else 0
  }

  /** The byte at exponent j after the loop has visited it. */
  function FixedByte(f: Gf, sigma: seq<nat>, d: seq<nat>, w: seq<nat>, byte: nat, j: nat): nat
    requires f.p == 255 && j <= 255
  {
    var x := Pow(f, 255 - j);
    if Eval(f, sigma, x, MAX_POLY) != 0 then byte
    else Xor(byte, ErrorValue(f, Eval(f, w, x, MAX_POLY), Eval(f, d, x, MAX_POLY)))
  }

  /** The quotient om / sd by logarithms, with the table's log[0] = 0. */
  function ErrorValue(f: Gf, om: nat, sd: nat): nat {
    if om < |f.log| && sd < |f.log| && f.p > 0 && f.log[sd] <= f.p && (f.p - f.log[sd] + f.log[om]) % f.p < |f.exp|
    then f.exp[(f.p - f.log[sd] + f.log[om]) % f.p] else 0
  }

  /** Inverse of a power below the order. */
  lemma InvPow(f: Gf, j: nat)
    requires f.p == 255 && j < 255
    ensures Pow(f, 255 - j) == Inv(f, Pow(f, j))
  {
    hide Mul, Pow, Log, IsField;
    var a, b := Pow(f, 255 - j), Inv(f, Pow(f, j));
    PowMul(f, 255 - j, j);
    PowEnd(f);
    MulInv(f, Pow(f, j));
    // a = a (x b) = (a x) b = b
    MulAssoc(f, a, Pow(f, j), b);
    MulOne(f, a);
    MulOne(f, b);
  }

  lemma PowEnd(f: Gf)
    ensures Pow(f, f.p) == 1
  {
  }

  // ---- why that is the repair ---------------------------------------------------------------------------------

  /** c is a codeword differing from r in at most npar / 2 bytes. */
  ghost predicate Near(f: Gf, c: seq<nat>, r: seq<nat>, npar: nat) {
    |c| == |r| && InFieldAll(f, c) && Codeword(f, c, npar) && 2 * Distance(c, r) <= npar
  }

  lemma {:induction false} NoDistance(c: seq<nat>, r: seq<nat>, n: nat)
    requires n <= |c| == |r| && |Wrong(c, r, n)| == 0
    ensures c[|c| - n..] == r[|c| - n..]
  {
    if n > 0 {
      NoDistance(c, r, n - 1);
      assert c[|c| - n..] == [c[|c| - n]] + c[|c| - n + 1..];
      assert r[|c| - n..] == [r[|c| - n]] + r[|c| - n + 1..];
    }
  }

  lemma NoDistanceSame(c: seq<nat>, r: seq<nat>)
    requires |c| == |r| && Distance(c, r) == 0
    ensures c == r
  {
    NoDistance(c, r, |c|);
    assert c[0..] == c && r[0..] == r;
  }

  /** A damaged block is not its nearest codeword, so there is at least one error. */
  lemma SomeError(f: Gf, c: seq<nat>, r: seq<nat>, npar: nat)
    requires Near(f, c, r, npar) && !Codeword(f, r, npar)
    ensures 1 <= Distance(c, r) && 2 <= npar
  {
    if Distance(c, r) == 0 {
      NoDistanceSame(c, r);
    }
  }

  lemma PreparedLocates(f: Gf, c: seq<nat>, r: seq<nat>, npar: nat, sigma: seq<nat>, d: seq<nat>, w: seq<nat>)
    requires |r| <= f.p && InFieldAll(f, r) && Near(f, c, r, npar) && !Codeword(f, r, npar)
    requires Prepared(f, r, npar, sigma, d, w)
    ensures Locates(f, sigma, Locators(f, c, r, |c|))
    ensures IsEvaluator(f, w, sigma, Locators(f, c, r, |c|),
                        Scaled(f, Locators(f, c, r, |c|), Magnitudes(c, r, |c|)))
  {
    hide Xor, Mul, IsField, Syndrome, Conv, Wrong, Shortest, Roots, Connection;
    var s: seq<nat>, L: nat :|
        && |s| == MAX_POLY
        && (forall i :: 0 <= i < MAX_POLY ==> s[i] == if i < npar then Syndrome(f, r, i) else 0)
        && Shortest(f, sigma, L, s, npar)
        && forall k :: 0 <= k < MAX_POLY ==> w[k] == if k < npar - 1 then Conv(f, sigma, s[1..], k) else 0;
    var xs, ys := Locators(f, c, r, |c|), Magnitudes(c, r, |c|);
    LocatorsAreUnits(f, c, r);
    SyndromesOfErrors(f, c, r, npar, s);
    hide Locators, Magnitudes, IsPowerSums;
    ShortestLocates(f, sigma, L, s, xs, ys, npar);
    SomeError(f, c, r, npar);
    ShortestConnection(f, sigma, L, s, npar);
    assert Locates(f, sigma, xs);
    ShiftedSums(f, s, xs, ys, npar);
    EvaluatorIsConv(f, w, sigma, s[1..], xs, Scaled(f, xs, ys), npar - 1);
  }

  lemma ShortestConnection(f: Gf, p: seq<nat>, L: nat, s: seq<nat>, N: nat)
    requires Shortest(f, p, L, s, N)
    ensures Connection(f, p, L) && L <= N
  {
  }

  /** The cut-off convolution is the evaluator: above the degree it would vanish anyway. */
  lemma EvaluatorIsConv(f: Gf, w: seq<nat>, p: seq<nat>, s: seq<nat>, xs: seq<nat>, zs: seq<nat>, n: nat)
    requires Locates(f, p, xs) && IsPowerSums(f, s, xs, zs, n) && |xs| <= n < MAX_POLY && |w| == MAX_POLY
    requires forall k :: 0 <= k < MAX_POLY ==> w[k] == if k < n then Conv(f, p, s, k) else 0
    ensures IsEvaluator(f, w, p, xs, zs)
  {
    hide Xor, Mul, IsField, Conv, Quotient, Eval, Inv;
    forall k: nat | k < MAX_POLY ensures C(w, k) == Sum(|xs|, QuotientShare(f, p, xs, zs, k)) {
      if k < n {
        LocatesInField(f, p, xs);
        ConvQuotient(f, p, s, xs, zs, n, k);
      } else {
        forall e: nat | e < |xs| ensures QuotientShare(f, p, xs, zs, k)(e) == 0 {
          QuotientDegree(f, p, xs, e, k);
          MulZero(f, C(zs, e));
        }
        SumZero(|xs|, QuotientShare(f, p, xs, zs, k));
      }
    }
  }

  lemma LocatesInField(f: Gf, p: seq<nat>, xs: seq<nat>)
    requires Locates(f, p, xs)
    ensures InFieldAll(f, p) && DegreeAtMost(p, |xs|) && |xs| < MAX_POLY
  {
  }

  lemma ErrorValueQuotient(f: Gf, om: nat, sd: nat)
    requires 0 < om < f.size && 0 < sd < f.size
    ensures ErrorValue(f, om, sd) == Mul(f, om, Inv(f, sd))
  {
    hide Mul, Inv;
    QuotientTable(f, om, sd);
    ModRange(f.p - f.log[sd] + f.log[om], f.p);
  }

  lemma ErrorValueInField(f: Gf, om: nat, sd: nat)
    ensures ErrorValue(f, om, sd) < f.size
  {
    if om < |f.log| && sd < |f.log| && f.log[sd] <= f.p {
      var k := f.p - f.log[sd] + f.log[om];
      ModRange(k, f.p);
      assert ExpAt(f, k % f.p);
    }
  }

  /** A wrong byte is a root of the locator polynomial, and Forney's quotient is its error. */
  lemma WrongByteFixed(f: Gf, c: seq<nat>, r: seq<nat>, npar: nat, sigma: seq<nat>, d: seq<nat>, w: seq<nat>, j: nat)
    requires f.p == 255 && |r| <= 255 && InFieldAll(f, r) && Near(f, c, r, npar) && !Codeword(f, r, npar)
    requires Prepared(f, r, npar, sigma, d, w)
    requires j < |r| && c[|c| - 1 - j] != r[|c| - 1 - j]
    ensures FixedByte(f, sigma, d, w, r[|c| - 1 - j], j) == c[|c| - 1 - j]
  {
    hide Xor, Mul, IsField, Codeword, Eval, Inv, Wrong, Pow, Roots, IsEvaluator, Connection, ErrorValue;
    var xs, ys := Locators(f, c, r, |c|), Magnitudes(c, r, |c|);
    PreparedLocates(f, c, r, npar, sigma, d, w);
    WrongMembers(c, r, |c|, j);
    var k :| 0 <= k < |xs| && Wrong(c, r, |c|)[k] == j;
    assert xs[k] == Pow(f, j);
    InvPow(f, j);
    var x := Inv(f, xs[k]);
    LocatesInField(f, sigma, xs);
    RootAt(f, sigma, xs, k);
    LocatorsAreUnits(f, c, r);
    Magnitude(f, w, d, sigma, xs, ys, k);
    ErrorValueQuotient(f, Eval(f, w, x, MAX_POLY), Eval(f, d, x, MAX_POLY));
    XorComm(c[|c| - 1 - j], r[|c| - 1 - j]);
    XorCancel(c[|c| - 1 - j], r[|c| - 1 - j]);
  }

  lemma RootAt(f: Gf, p: seq<nat>, xs: seq<nat>, k: nat)
    requires Locates(f, p, xs) && k < |xs|
    ensures Eval(f, p, Inv(f, xs[k]), MAX_POLY) == 0
  {
    hide Xor, Mul, IsField, Eval, Inv;
    assert Eval(f, p, Inv(f, xs[k]), |xs| + 1) == 0;
    EvalExtend(f, p, Inv(f, xs[k]), |xs| + 1, MAX_POLY);
  }

  /** A right byte is no root. */
  lemma RightByteKept(f: Gf, c: seq<nat>, r: seq<nat>, npar: nat, sigma: seq<nat>, d: seq<nat>, w: seq<nat>, j: nat)
    requires f.p == 255 && |r| <= 255 && InFieldAll(f, r) && Near(f, c, r, npar) && !Codeword(f, r, npar)
    requires Prepared(f, r, npar, sigma, d, w)
    requires j < |r| && c[|c| - 1 - j] == r[|c| - 1 - j]
    ensures Eval(f, sigma, Pow(f, 255 - j), MAX_POLY) != 0
  {
    hide Xor, Mul, IsField, Codeword, Eval, Inv, Wrong, Pow, IsEvaluator, ErrorValue;
    var xs, ys := Locators(f, c, r, |c|), Magnitudes(c, r, |c|);
    PreparedLocates(f, c, r, npar, sigma, d, w);
    LocatesInField(f, sigma, xs);
    InvPow(f, j);
    if Eval(f, sigma, Pow(f, 255 - j), MAX_POLY) == 0 {
      EvalExtend(f, sigma, Pow(f, 255 - j), |xs| + 1, MAX_POLY);
      OnlyLocators(f, sigma, xs, Pow(f, j));
      var k :| 0 <= k < |xs| && xs[k] == Pow(f, j);
      var i := Wrong(c, r, |c|)[k];
      PowEq(f, i, j);
      WrongMembers(c, r, |c|, i);
    }
  }

  // ---- the repair ----------------------------------------------------------------------------------------------

  function FixedAt(f: Gf, sigma: seq<nat>, d: seq<nat>, w: seq<nat>, r: seq<nat>, n: nat, i: nat): nat
    requires f.p == 255 && i < |r| <= 255
  {
    if |r| - 1 - i < n then FixedByte(f, sigma, d, w, r[i], |r| - 1 - i) else r[i]
  }

  /** The block the loop leaves behind when it has visited the exponents below n. */
  function Fixed(f: Gf, sigma: seq<nat>, d: seq<nat>, w: seq<nat>, r: seq<nat>, n: nat): (b: seq<nat>)
    requires f.p == 255 && n <= |r| <= 255
    ensures |b| == |r|
    ensures forall i :: 0 <= i < |r| ==> b[i] == FixedAt(f, sigma, d, w, r, n, i)
  {
    seq(|r|, i requires 0 <= i < |r| => FixedAt(f, sigma, d, w, r, n, i))
  }

  lemma FixedByteIs(f: Gf, sigma: seq<nat>, d: seq<nat>, w: seq<nat>, byte: nat, j: nat)
    requires f.p == 255 && j <= 255
    ensures var x := Pow(f, 255 - j);
      FixedByte(f, sigma, d, w, byte, j) ==
        if Eval(f, sigma, x, MAX_POLY) != 0 then byte
        else Xor(byte, ErrorValue(f, Eval(f, w, x, MAX_POLY), Eval(f, d, x, MAX_POLY)))
  {
  }

  lemma NearLength(f: Gf, c: seq<nat>, r: seq<nat>, npar: nat)
    requires Near(f, c, r, npar)
    ensures |c| == |r|
  {
  }

  lemma FixedIsCodeword(f: Gf, c: seq<nat>, r: seq<nat>, npar: nat, sigma: seq<nat>, d: seq<nat>, w: seq<nat>)
    requires f.p == 255 && |r| <= 255 && InFieldAll(f, r) && Near(f, c, r, npar) && !Codeword(f, r, npar)
    requires Prepared(f, r, npar, sigma, d, w)
    ensures Fixed(f, sigma, d, w, r, |r|) == c
  {
    hide Prepared, Near, Codeword, FixedByte, Eval, Xor, Mul, Pow, IsField, InFieldAll;
    NearLength(f, c, r, npar);
    var b := Fixed(f, sigma, d, w, r, |r|);
    forall i | 0 <= i < |r| ensures b[i] == c[i] {
      var j := |r| - 1 - i;
      if c[i] != r[i] {
        WrongByteFixed(f, c, r, npar, sigma, d, w, j);
      } else {
        RightByteKept(f, c, r, npar, sigma, d, w, j);
        FixedByteIs(f, sigma, d, w, r[i], j);
      }
    }
  }

  method Derivative(sigma: array<nat>, d: array<nat>)
    requires sigma.Length == d.Length == MAX_POLY && sigma != d
    modifies d
    ensures IsDerivative(d[..], sigma[..])
  {
    Zero(d);
    var i := 0;
    while i + 1 < MAX_POLY
      invariant 0 <= i <= MAX_POLY && i % 2 == 0
      invariant forall k :: 0 <= k < MAX_POLY ==> d[k] == if k < i && k % 2 == 0 then sigma[k + 1] else 0
    {
      d[i] := sigma[i + 1];
      i := i + 2;
    }
  }



  /** Root search: repairs data[off..off + bs] from the prepared polynomials. */
  method FixRoots(data: array<nat>, off: nat, bs: nat, sigma: array<nat>, d: array<nat>, omega: array<nat>, f: Gf)
    requires f.p == 255 && f.size == 256 && bs <= 255 && off + bs <= data.Length
    requires sigma.Length == d.Length == omega.Length == MAX_POLY && data != sigma && data != d && data != omega
    requires InFieldAll(f, data[off..off + bs])
    requires InFieldAll(f, sigma[..]) && InFieldAll(f, d[..]) && InFieldAll(f, omega[..])
    modifies data
    ensures data[off..off + bs] == Fixed(f, sigma[..], d[..], omega[..], old(data[off..off + bs]), bs)
    ensures InFieldAll(f, data[off..off + bs])
    ensures data[..off] == old(data[..off]) && data[off + bs..] == old(data[off + bs..])
  {
    hide Xor, Mul, IsField, Pow, Eval, FixedByte;
    ghost var r, sg, dv, om := data[off..off + bs], sigma[..], d[..], omega[..];
    for i := 0 to bs
      invariant sigma[..] == sg && d[..] == dv && omega[..] == om
      invariant data[off..off + bs] == Fixed(f, sg, dv, om, r, i)
      invariant InFieldAll(f, data[off..off + bs])
      invariant data[..off] == old(data[..off]) && data[off + bs..] == old(data[off + bs..])
    {
      ghost var before := data[off..off + bs];
      var at := off + bs - i - 1;
      TableEntry(f, 255 - i);
      var xinv := f.exp[255 - i];
      var value := PolyEval(sigma, xinv, f);
      assert before[bs - i - 1] == r[bs - i - 1] == data[at];
      if value == 0 {
        var sd := PolyEval(d, xinv, f);
        var omegaX := PolyEval(omega, xinv, f);
        EvalInField(f, dv, xinv, MAX_POLY);
        EvalInField(f, om, xinv, MAX_POLY);
        var error := Divide(omegaX, sd, f);
        ErrorValueInField(f, omegaX, sd);
        AddInField(f, data[at], error);
        data[at] := Xor(data[at], error);
      }
      FixedByteIs(f, sg, dv, om, r[bs - i - 1], i);
      assert data[off..off + bs] == before[bs - i - 1 := data[at]];
    }
  }

  method Divide(om: nat, sd: nat, f: Gf) returns (error: nat)
    requires om < f.size && sd < f.size
    ensures error == ErrorValue(f, om, sd)
  {
    LogDefined(f, om);
    LogDefined(f, sd);
    ModRange(f.p - f.log[sd] + f.log[om], f.p);
    error := f.exp[(f.p - f.log[sd] + f.log[om]) % f.p];
  }

  /** Whatever codeword was near has been restored. */
  ghost predicate Restores(f: Gf, before: seq<nat>, after: seq<nat>, npar: nat, ok: bool) {
    forall c: seq<nat> :: Near(f, c, before, npar) ==> ok && after == c
  }

  /** Repairs data[off..off + bs], whose last npar bytes are parity.

      If some codeword differs from the block in at most npar / 2 bytes, that codeword is restored and
      the result is success; success always leaves a codeword; nothing outside the block changes. */
  method Correct(data: array<nat>, off: nat, bs: nat, npar: nat, f: Gf) returns (ok: bool)
    requires f.p == 255 && f.size == 256 && bs <= 255 && off + bs <= data.Length && 1 <= npar < MAX_POLY
    requires InFieldAll(f, data[off..off + bs])
    modifies data
    ensures ok <==> Codeword(f, data[off..off + bs], npar)
    ensures Restores(f, old(data[off..off + bs]), data[off..off + bs], npar, ok)
    ensures InFieldAll(f, data[off..off + bs])
    ensures data[..off] == old(data[..off]) && data[off + bs..] == old(data[off + bs..])
  {
    hide Xor, Mul, IsField, Pow, Eval, FixedByte, Syndrome, Codeword, Conv, Distance;
    ghost var r := data[off..off + bs];
    var s := new nat[MAX_POLY](_ => 0);
    var sigma := new nat[MAX_POLY](_ => 0);
    var d := new nat[MAX_POLY](_ => 0);
    var omega := new nat[MAX_POLY](_ => 0);
    var nonzero := BlockSyndromes(data, off, bs, npar, s, f);
    SyndromesInField(f, r, npar, s[..]);
    if !nonzero {
      forall c: seq<nat> | Near(f, c, r, npar) ensures r == c {
        NearCodeword(f, c, r, npar);
      }
      return true;
    }
    ghost var s0 := s[..];
    ghost var L := Run(s, npar, f, sigma);
    ghost var sg := sigma[..];
    ShortestConnection(f, sg, L, s0, npar);
    ElocPoly(omega, s, sigma, npar - 1, f);
    Derivative(sigma, d);
    ghost var dv, om := d[..], omega[..];
    assert Prepared(f, r, npar, sg, dv, om) by {
      PreparedBy(f, r, npar, sg, dv, om, s0, L);
    }
    FixRoots(data, off, bs, sigma, d, omega, f);
    forall c: seq<nat> | Near(f, c, r, npar) ensures data[off..off + bs] == c {
      FixedIsCodeword(f, c, r, npar, sg, dv, om);
    }
    ghost var fixed := data[off..off + bs];
    var bad := BlockSyndromes(data, off, bs, npar, s, f);
    ok := !bad;
  }

  lemma SyndromesInField(f: Gf, r: seq<nat>, npar: nat, s: seq<nat>)
    requires |s| == MAX_POLY && forall i :: 0 <= i < MAX_POLY ==> s[i] == if i < npar then Syndrome(f, r, i) else 0
    ensures InFieldAll(f, s)
  {
    hide Xor, Mul, IsField, Pow;
    forall i | 0 <= i < MAX_POLY ensures s[i] < f.size {
      FieldPositive(f);
      SumInField(f, |r|, SyndromeTerm(f, r, i));
    }
  }

  lemma PreparedBy(f: Gf, r: seq<nat>, npar: nat, sigma: seq<nat>, d: seq<nat>, w: seq<nat>, s: seq<nat>, L: nat)
    requires npar < MAX_POLY && |w| == MAX_POLY && IsDerivative(d, sigma) && Shortest(f, sigma, L, s, npar)
    requires |s| == MAX_POLY && forall i :: 0 <= i < MAX_POLY ==> s[i] == if i < npar then Syndrome(f, r, i) else 0
    requires forall k :: 0 <= k < MAX_POLY ==> w[k] == if k < npar - 1 then Conv(f, sigma, s[1..], k) else 0
    ensures Prepared(f, r, npar, sigma, d, w)
  {
    hide Xor, Mul, IsField, Pow, Eval, Syndrome, Conv, Generates, Minimal;
    FieldPositive(f);
    forall k | 0 <= k < MAX_POLY ensures w[k] < f.size {
      ConvInField(f, sigma, s[1..], k);
    }
    assert InFieldAll(f, sigma);
  }

  /** Different codewords differ in more bytes than there are parity bytes. */
  lemma MinimumDistance(f: Gf, c: seq<nat>, r: seq<nat>, npar: nat)
    requires f.p == 255 && |c| == |r| <= 255 && InFieldAll(f, c) && InFieldAll(f, r)
    requires Codeword(f, c, npar) && Codeword(f, r, npar) && Distance(c, r) <= npar
    ensures c == r
  {
    hide Xor, Mul, IsField, Pow, Eval;
    var xs, ys := Locators(f, c, r, |c|), Magnitudes(c, r, |c|);
    LocatorsAreUnits(f, c, r);
    var s := seq(npar, i => 0);
    forall i | 0 <= i < npar ensures s[i] == Syndrome(f, r, i) {
      assert Syndrome(f, r, i) == 0;
    }
    SyndromesOfErrors(f, c, r, npar, s);
    forall j: nat | j < npar ensures PowerSum(f, xs, ys, j) == 0 {
      assert C(s, j) == PowerSum(f, xs, ys, j);
    }
    Vandermonde(f, xs, ys, npar);
    assert |ys| > 0 ==> C(ys, 0) == 0 && C(ys, 0) > 0;
    NoDistanceSame(c, r);
  }

  /** Two codewords cannot both be near: a codeword near another one is that one. */
  lemma NearCodeword(f: Gf, c: seq<nat>, r: seq<nat>, npar: nat)
    requires f.p == 255 && |r| <= 255 && InFieldAll(f, r) && Codeword(f, r, npar) && Near(f, c, r, npar)
    ensures c == r
  {
    hide Codeword, Distance;
    MinimumDistance(f, c, r, npar);
  }
}
