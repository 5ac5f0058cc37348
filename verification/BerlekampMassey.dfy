/** The decoder's Berlekamp-Massey loop, over either field, on its fixed 64-entry buffers. */
module BerlekampMassey {
  import opened Bits
  import opened Galois
  import opened Sums
  import opened Polynomials
  import opened Recurrences

  const MAX_POLY := 64

  /** p of length L generates the first N terms of s, and nothing shorter does. */
  ghost predicate Shortest(f: Gf, p: seq<nat>, L: nat, s: seq<nat>, N: nat) {
    && Connection(f, p, L)
    && L <= N
    && Generates(f, p, s, L, N)
    && Minimal(f, L, s, N)
  }

  ghost predicate Minimal(f: Gf, L: nat, s: seq<nat>, N: nat) {
    forall q: seq<nat>, t: nat {:trigger Connection(f, q, t)} ::
      Connection(f, q, t) && Generates(f, q, s, t, N) ==> L <= t
  }

  /** dst(z) := dst(z) + c z^shift src(z), cut to the buffer. */
  method PolyAdd(dst: array<nat>, src: array<nat>, c: nat, shift: int, f: Gf)
    requires dst.Length == MAX_POLY && src.Length == MAX_POLY && dst != src
    requires InFieldAll(f, dst[..]) && InFieldAll(f, src[..]) && c < f.size
    modifies dst
    ensures InFieldAll(f, dst[..])
    ensures forall i :: 0 <= i < MAX_POLY ==> dst[i] == Xor(old(dst[i]), Mul(f, c, C(src[..], i - shift)))
  {
    hide Xor, Mul, IsField;
    if c == 0 {
      forall i | 0 <= i < MAX_POLY ensures dst[i] == Xor(old(dst[i]), Mul(f, c, C(src[..], i - shift))) {
        MulZero(f, C(src[..], i - shift));
        XorZero(dst[i]);
      }
      return;
    }
    MulTable(f, c, 1);
    var logC := f.log[c];
    forall i | 0 <= i < MAX_POLY ensures i - shift < 0 ==> dst[i] == Xor(dst[i], Mul(f, c, C(src[..], i - shift))) {
      MulZero(f, c);
      XorZero(dst[i]);
    }
    for i := 0 to MAX_POLY
      invariant InFieldAll(f, dst[..])
      invariant forall j :: 0 <= j < MAX_POLY ==>
        dst[j] == if j - shift < i then Xor(old(dst[j]), Mul(f, c, C(src[..], j - shift))) else old(dst[j])
    {
      var p := i + shift;
      var v := src[i];
      if p < 0 || p >= MAX_POLY {
        continue;
      }
      if v == 0 {
        MulZero(f, c);
        XorZero(dst[p]);
        continue;
      }
      MulTable(f, v, c);
      MulComm(f, v, c);
      AddInField(f, dst[p], Mul(f, c, v));
      dst[p] := Xor(dst[p], f.exp[(f.log[v] + logC) % f.p]);
    }
    forall i | 0 <= i < MAX_POLY && i - shift >= MAX_POLY
      ensures dst[i] == Xor(old(dst[i]), Mul(f, c, C(src[..], i - shift)))
    {
      MulZero(f, c);
      XorZero(old(dst[i]));
    }
  }

  // ---- one step of the loop, on values ------------------------------------------------------------

  /** The loop's state before step n: the current recurrence c of length L, and the recurrence b of
      length lb that was current m steps ago and then missed by delta. */
  ghost predicate State(f: Gf, c: seq<nat>, L: nat, b: seq<nat>, lb: nat, delta: nat, m: nat, s: seq<nat>, n: nat) {
    && |c| == |b| == MAX_POLY
    && L <= n && 1 <= m <= n + 1 && L + lb == n - m + 1
    && 0 < delta < f.size
    && Connection(f, c, L) && Generates(f, c, s, L, n)
    && Connection(f, b, lb)
    && (forall k: nat {:trigger Conv(f, b, s, k)} :: lb <= k < n - m ==> Conv(f, b, s, k) == 0)
    && (m <= n ==> Conv(f, b, s, n - m) == delta)
    && Minimal(f, L, s, n)
  }

  /** A recurrence that stays correct stays shortest. */
  lemma MinimalKept(f: Gf, L: nat, s: seq<nat>, n: nat)
    requires Minimal(f, L, s, n)
    ensures Minimal(f, L, s, n + 1)
  {
    forall q: seq<nat>, t: nat {:trigger Connection(f, q, t)} | Connection(f, q, t) && Generates(f, q, s, t, n + 1)
      ensures L <= t
    {
      assert Generates(f, q, s, t, n);
    }
  }

  /** After a discrepancy at n no recurrence shorter than n + 1 - L is left. */
  lemma MinimalGrows(f: Gf, c: seq<nat>, L: nat, s: seq<nat>, n: nat)
    requires Connection(f, c, L) && Generates(f, c, s, L, n) && Conv(f, c, s, n) != 0 && L <= n
    ensures Minimal(f, n + 1 - L, s, n + 1)
  {
    forall q: seq<nat>, t: nat {:trigger Connection(f, q, t)} | Connection(f, q, t) && Generates(f, q, s, t, n + 1)
      ensures n + 1 - L <= t
    {
      if t + L <= n {
        Massey(f, q, t, c, L, s, n);
      }
    }
  }

  lemma StepAgrees(f: Gf, c: seq<nat>, L: nat, b: seq<nat>, lb: nat, delta: nat, m: nat, s: seq<nat>, n: nat)
    requires State(f, c, L, b, lb, delta, m, s, n)
    requires Conv(f, c, s, n) == 0
    ensures State(f, c, L, b, lb, delta, m + 1, s, n + 1)
  {
    hide Conv, Connection, IsField;
    assert Generates(f, c, s, L, n + 1);
    MinimalKept(f, L, s, n);
  }

  /** The corrected recurrence c + (d / delta) z^m b. */
  lemma StepCorrects(f: Gf, c: seq<nat>, L: nat, b: seq<nat>, lb: nat, delta: nat, m: nat, s: seq<nat>, n: nat,
                     r: seq<nat>, L': nat)
    requires State(f, c, L, b, lb, delta, m, s, n) && n < MAX_POLY - 1
    requires Conv(f, c, s, n) != 0
    requires |r| == MAX_POLY && InFieldAll(f, r)
    requires forall i :: 0 <= i < MAX_POLY ==>
      r[i] == Xor(c[i], Mul(f, Mul(f, Conv(f, c, s, n), Inv(f, delta)), C(b, i - m)))
    requires L' == (if 2 * L <= n then n + 1 - L else L)
    ensures Connection(f, r, L') && Generates(f, r, s, L', n + 1)
  {
    hide Xor, Mul, Conv, Inv, IsField;
    var d := Conv(f, c, s, n);
    var g := Mul(f, d, Inv(f, delta));
    forall i: nat ensures C(r, i) == Xor(C(c, i), Mul(f, g, C(b, i - m))) {
      if i >= MAX_POLY {
        assert C(b, i - m) == 0;
        MulZero(f, g);
        XorZero(0);
      }
    }
    assert Combined(f, r, c, g, b, m);
    forall i: int | i > L' ensures C(r, i) == 0 {
      assert C(c, i) == 0 && C(b, i - m) == 0;
      MulZero(f, g);
      XorZero(0);
    }
    MulZero(f, g);
    XorZero(1);
    var zero: int := 0;
    assert C(r, zero) == Xor(C(c, zero), Mul(f, g, C(b, zero - m)));
    forall k: nat | L' <= k < n + 1 ensures Conv(f, r, s, k) == 0 {
      ConvCombined(f, r, c, g, b, m, s, k);
      if k == n {
        ConvInField(f, c, s, n);
        MulAssoc(f, d, Inv(f, delta), delta);
        MulInv(f, delta);
        MulOne(f, d);
        XorSelf(d);
      } else {
        assert Conv(f, c, s, k) == 0 && Conv(f, b, s, k - m) == 0;
        XorZero(0);
      }
    }
  }

  lemma StepGrows(f: Gf, c: seq<nat>, L: nat, b: seq<nat>, lb: nat, delta: nat, m: nat, s: seq<nat>, n: nat, r: seq<nat>)
    requires State(f, c, L, b, lb, delta, m, s, n) && n < MAX_POLY - 1
    requires Conv(f, c, s, n) != 0 && 2 * L <= n
    requires |r| == MAX_POLY && InFieldAll(f, r)
    requires forall i :: 0 <= i < MAX_POLY ==>
      r[i] == Xor(c[i], Mul(f, Mul(f, Conv(f, c, s, n), Inv(f, delta)), C(b, i - m)))
    ensures State(f, r, n + 1 - L, c, L, Conv(f, c, s, n), 1, s, n + 1)
  {
    hide Xor, Mul, Conv, Inv, IsField, Connection, Minimal, InFieldAll;
    StepCorrects(f, c, L, b, lb, delta, m, s, n, r, n + 1 - L);
    MinimalGrows(f, c, L, s, n);
    ConvInField(f, c, s, n);
  }

  lemma StepRepairs(f: Gf, c: seq<nat>, L: nat, b: seq<nat>, lb: nat, delta: nat, m: nat, s: seq<nat>, n: nat, r: seq<nat>)
    requires State(f, c, L, b, lb, delta, m, s, n) && n < MAX_POLY - 1
    requires Conv(f, c, s, n) != 0 && 2 * L > n
    requires |r| == MAX_POLY && InFieldAll(f, r)
    requires forall i :: 0 <= i < MAX_POLY ==>
      r[i] == Xor(c[i], Mul(f, Mul(f, Conv(f, c, s, n), Inv(f, delta)), C(b, i - m)))
    ensures State(f, r, L, b, lb, delta, m + 1, s, n + 1)
  {
    hide Xor, Mul, Conv, Inv, IsField, Connection, Minimal, Generates, InFieldAll;
    StepCorrects(f, c, L, b, lb, delta, m, s, n, r, L);
    MinimalKept(f, L, s, n);
  }

  /** Both recurrences start as the constant 1, with length 0 and a notional miss just before s[0]. */
  lemma StartState(f: Gf, one: seq<nat>, s: seq<nat>)
    requires |one| == MAX_POLY && one[0] == 1 && forall i :: 1 <= i < MAX_POLY ==> one[i] == 0
    ensures State(f, one, 0, one, 0, 1, 1, s, 0)
  {
  }

  lemma StateFacts(f: Gf, c: seq<nat>, L: nat, b: seq<nat>, lb: nat, delta: nat, m: nat, s: seq<nat>, n: nat)
    requires State(f, c, L, b, lb, delta, m, s, n)
    ensures |c| == |b| == MAX_POLY && InFieldAll(f, c) && InFieldAll(f, b) && Connection(f, c, L)
    ensures L <= n && 0 < delta < f.size
    ensures Shortest(f, c, L, s, n)
  {
  }

  // ---- the loop -------------------------------------------------------------------------------------

  /** The discrepancy of step n: s[n] against what c predicts. */
  method Discrepancy(s: array<nat>, c: array<nat>, L: nat, n: nat, f: Gf) returns (d: nat)
    requires c.Length == MAX_POLY && n < s.Length && L <= n && L < MAX_POLY
    requires InFieldAll(f, s[..]) && Connection(f, c[..], L)
    ensures d == Conv(f, c[..], s[..], n)
  {
    hide Xor, Mul, IsField;
    ghost var term := ConvTerm(f, c[..], s[..], n);
    d := s[n];
    MulOne(f, s[n]);
    XorZero(s[n]);
    assert Sum(1, term) == Xor(Sum(0, term), term(0));
    for i := 1 to L + 1
      invariant d == Sum(i, term)
    {
      MulZero(f, c[i]);
      MulZero(f, s[n - i]);
      XorZero(d);
      if c[i] != 0 && s[n - i] != 0 {
        MulTable(f, c[i], s[n - i]);
        d := Xor(d, f.exp[(f.log[c[i]] + f.log[s[n - i]]) % f.p]);
      }
    }
    ConvNarrow(f, c[..], s[..], n, L);
  }

  method Copy(dst: array<nat>, src: array<nat>)
    requires dst.Length == src.Length && dst != src
    modifies dst
    ensures dst[..] == src[..]
  {
    for i := 0 to src.Length
      invariant dst[..i] == src[..i]
    {
      dst[i] := src[i];
    }
    assert dst[..src.Length] == dst[..] && src[..src.Length] == src[..];
  }

  /** Writes to sigma a shortest recurrence for the first N terms of s; L is its length. */
  method Run(s: array<nat>, N: nat, f: Gf, sigma: array<nat>) returns (ghost L: nat)
    requires N <= s.Length && N < MAX_POLY && sigma.Length == MAX_POLY && sigma != s
    requires InFieldAll(f, s[..])
    modifies sigma
    ensures Shortest(f, sigma[..], L, s[..], N)
  {
    hide Xor, Mul, Conv, Inv, IsField, Connection, State, Shortest, InFieldAll;
    var C0 := new nat[MAX_POLY](_ => 0);
    var B := new nat[MAX_POLY](_ => 0);
    var T := new nat[MAX_POLY](_ => 0);
    var l: nat, m: nat, b: nat := 0, 1, 1;
    ghost var lb: nat := 0;
    B[0] := 1;
    C0[0] := 1;
    assert B[..] == C0[..];
    StartState(f, C0[..], s[..]);
    for n := 0 to N
      invariant fresh(C0) && fresh(B) && fresh(T) && C0 != B && B != T && C0 != T
      invariant State(f, C0[..], l, B[..], lb, b, m, s[..], n)
    {
      ghost var c0, b0 := C0[..], B[..];
      StateFacts(f, c0, l, b0, lb, b, m, s[..], n);
      var d := Discrepancy(s, C0, l, n, f);
      ConvInField(f, c0, s[..], n);
      QuotientTable(f, 1, b);
      LogDefined(f, d);
      var mult := f.exp[(f.p - f.log[b] + f.log[d]) % f.p];
      if d == 0 {
        StepAgrees(f, c0, l, b0, lb, b, m, s[..], n);
        m := m + 1;
      } else if l * 2 <= n {
        QuotientTable(f, d, b);
        Copy(T, C0);
        PolyAdd(C0, B, mult, m, f);
        StepGrows(f, c0, l, b0, lb, b, m, s[..], n, C0[..]);
        Copy(B, T);
        lb := l;
        l := n + 1 - l;
        b := d;
        m := 1;
      } else {
        QuotientTable(f, d, b);
        PolyAdd(C0, B, mult, m, f);
        StepRepairs(f, c0, l, b0, lb, b, m, s[..], n, C0[..]);
        m := m + 1;
      }
    }
    StateFacts(f, C0[..], l, B[..], lb, b, m, s[..], N);
    Copy(sigma, C0);
    L := l;
  }
}
