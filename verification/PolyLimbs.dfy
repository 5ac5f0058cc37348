/** One block of Poly1305 on 32-bit limbs: the product, its partial reduction modulo 2^130 - 5, and the bounds that
    keep every intermediate inside its machine word. */
module PolyLimbs {

  const B: nat := 0x1_0000_0000
  const B2: nat := 0x1_00000000_00000000
  const B3: nat := 0x1_00000000_00000000_00000000
  const B4: nat := 0x1_00000000_00000000_00000000_00000000

  /** 2^130 - 5. */
  const P: nat := 0x3_ffffffff_ffffffff_ffffffff_fffffffb

  type u32 = x: nat | x < 0x1_0000_0000
  type u64 = x: nat | x < 0x1_00000000_00000000

  /** Five limbs as a number; the top one is not reduced. */
  function Value(h0: int, h1: int, h2: int, h3: int, h4: int): int {
    h0 + h1 * B + h2 * B2 + h3 * B3 + h4 * B4
  }

  // ---- the product -------------------------------------------------------------------------------------------------------

  lemma MulRow(s: int, r0: int, r1: int, r2: int, r3: int)
    ensures s * Value(r0, r1, r2, r3, 0) == Value(s * r0, s * r1, s * r2, s * r3, 0)
  {
    MulAdd(s, r0 + r1 * B + r2 * B2, r3 * B3);
    MulAdd(s, r0 + r1 * B, r2 * B2);
    MulAdd(s, r0, r1 * B);
    MulOut(s, r1, B);
    MulOut(s, r2, B2);
    MulOut(s, r3, B3);
  }

  lemma MulAdd(s: int, a: int, b: int)
    ensures s * (a + b) == s * a + s * b
  {
  }

  lemma MulOut(s: int, a: int, c: int)
    ensures s * (a * c) == (s * a) * c
  {
  }

  lemma MulRows(s0: int, s1: int, s2: int, s3: int, s4: int, r: int)
    ensures Value(s0, s1, s2, s3, s4) * r == Value(s0 * r, s1 * r, s2 * r, s3 * r, s4 * r)
  {
    MulAdd(r, s0 + s1 * B + s2 * B2 + s3 * B3, s4 * B4);
    MulAdd(r, s0 + s1 * B + s2 * B2, s3 * B3);
    MulAdd(r, s0 + s1 * B, s2 * B2);
    MulAdd(r, s0, s1 * B);
    MulOut(r, s1, B);
    MulOut(r, s2, B2);
    MulOut(r, s3, B3);
    MulOut(r, s4, B4);
  }

  /** A clamped limb times s: a quarter of it, four or five times. */
  lemma Quarter(s: int, q: int)
    ensures s * (4 * q) == 4 * (s * q) && s * (5 * q) == 5 * (s * q)
  {
  }

  /** The five columns of the product after 2^130 is replaced by 5; r0 = 4 q0 + t, the other limbs are 4 q. */
  function Column0(s0: int, s1: int, s2: int, s3: int, s4: int, q0: int, t: int, q1: int, q2: int, q3: int): int {
    s0 * (4 * q0 + t) + s1 * (5 * q3) + s2 * (5 * q2) + s3 * (5 * q1) + s4 * (5 * q0)
  }

  function Column1(s0: int, s1: int, s2: int, s3: int, s4: int, q0: int, t: int, q1: int, q2: int, q3: int): int {
    s0 * (4 * q1) + s1 * (4 * q0 + t) + s2 * (5 * q3) + s3 * (5 * q2) + s4 * (5 * q1)
  }

  function Column2(s0: int, s1: int, s2: int, s3: int, s4: int, q0: int, t: int, q1: int, q2: int, q3: int): int {
    s0 * (4 * q2) + s1 * (4 * q1) + s2 * (4 * q0 + t) + s3 * (5 * q3) + s4 * (5 * q2)
  }

  function Column3(s0: int, s1: int, s2: int, s3: int, s4: int, q0: int, t: int, q1: int, q2: int, q3: int): int {
    s0 * (4 * q3) + s1 * (4 * q2) + s2 * (4 * q1) + s3 * (4 * q0 + t) + s4 * (5 * q3)
  }

  lemma ColumnsAre(s0: int, s1: int, s2: int, s3: int, s4: int, q0: int, t: int, q1: int, q2: int, q3: int)
    ensures Column0(s0, s1, s2, s3, s4, q0, t, q1, q2, q3) == 4 * (s0 * q0) + s0 * t + 5 * (s1 * q3) + 5 * (s2 * q2) + 5 * (s3 * q1) + 5 * (s4 * q0)
    ensures Column1(s0, s1, s2, s3, s4, q0, t, q1, q2, q3) == 4 * (s0 * q1) + (4 * (s1 * q0) + s1 * t) + 5 * (s2 * q3) + 5 * (s3 * q2) + 5 * (s4 * q1)
    ensures Column2(s0, s1, s2, s3, s4, q0, t, q1, q2, q3) == 4 * (s0 * q2) + 4 * (s1 * q1) + (4 * (s2 * q0) + s2 * t) + 5 * (s3 * q3) + 5 * (s4 * q2)
    ensures Column3(s0, s1, s2, s3, s4, q0, t, q1, q2, q3) == 4 * (s0 * q3) + 4 * (s1 * q2) + 4 * (s2 * q1) + (4 * (s3 * q0) + s3 * t) + 5 * (s4 * q3)
  {
    hide Value;
    OneRow(s0, q0, t, q1, q2, q3);
    OneRow(s1, q0, t, q1, q2, q3);
    OneRow(s2, q0, t, q1, q2, q3);
    OneRow(s3, q0, t, q1, q2, q3);
    OneRow(s4, q0, t, q1, q2, q3);
  }

  /** The columns are congruent to the product. */
  lemma ProductColumns(s0: int, s1: int, s2: int, s3: int, s4: int, q0: int, t: int, q1: int, q2: int, q3: int) returns (k: int)
    ensures Value(s0, s1, s2, s3, s4) * Value(4 * q0 + t, 4 * q1, 4 * q2, 4 * q3, 0) ==
      Value(Column0(s0, s1, s2, s3, s4, q0, t, q1, q2, q3), Column1(s0, s1, s2, s3, s4, q0, t, q1, q2, q3),
            Column2(s0, s1, s2, s3, s4, q0, t, q1, q2, q3), Column3(s0, s1, s2, s3, s4, q0, t, q1, q2, q3), s4 * t) + P * k
  {
    hide Value, Column0, Column1, Column2, Column3, B, B2, B3, B4, P;
    MulRows(s0, s1, s2, s3, s4, Value(4 * q0 + t, 4 * q1, 4 * q2, 4 * q3, 0));
    k := s1 * q3 + s2 * q2 + s3 * q1 + s4 * q0 + (s2 * q3 + s3 * q2 + s4 * q1) * B + (s3 * q3 + s4 * q2) * B2 + s4 * q3 * B3;
    OneRow(s0, q0, t, q1, q2, q3);
    OneRow(s1, q0, t, q1, q2, q3);
    OneRow(s2, q0, t, q1, q2, q3);
    OneRow(s3, q0, t, q1, q2, q3);
    OneRow(s4, q0, t, q1, q2, q3);
    ColumnsAre(s0, s1, s2, s3, s4, q0, t, q1, q2, q3);
    Rearranged(s0 * q0, s0 * t, s0 * q1, s0 * q2, s0 * q3, s1 * q0, s1 * t, s1 * q1, s1 * q2, s1 * q3,
               s2 * q0, s2 * t, s2 * q1, s2 * q2, s2 * q3, s3 * q0, s3 * t, s3 * q1, s3 * q2, s3 * q3,
               s4 * q0, s4 * t, s4 * q1, s4 * q2, s4 * q3);
  }

  lemma OneRow(s: int, q0: int, t: int, q1: int, q2: int, q3: int)
    ensures s * Value(4 * q0 + t, 4 * q1, 4 * q2, 4 * q3, 0) == Value(4 * (s * q0) + s * t, 4 * (s * q1), 4 * (s * q2), 4 * (s * q3), 0)
    ensures s * (4 * q0 + t) == 4 * (s * q0) + s * t && s * (5 * q0) == 5 * (s * q0)
    ensures s * (4 * q1) == 4 * (s * q1) && s * (5 * q1) == 5 * (s * q1)
    ensures s * (4 * q2) == 4 * (s * q2) && s * (5 * q2) == 5 * (s * q2)
    ensures s * (4 * q3) == 4 * (s * q3) && s * (5 * q3) == 5 * (s * q3)
  {
    MulRow(s, 4 * q0 + t, 4 * q1, 4 * q2, 4 * q3);
    MulAdd(s, 4 * q0, t);
    Quarter(s, q0); Quarter(s, q1); Quarter(s, q2); Quarter(s, q3);
  }

  /** The twenty-five partial products, collected by columns; a quarter of each one above 2^130 counts five times below. */
  lemma Rearranged(a0: int, at: int, a1: int, a2: int, a3: int, b0: int, bt: int, b1: int, b2: int, b3: int,
                   c0: int, ct: int, c1: int, c2: int, c3: int, d0: int, dt: int, d1: int, d2: int, d3: int,
                   e0: int, et: int, e1: int, e2: int, e3: int)
    ensures Value(Value(4 * a0 + at, 4 * a1, 4 * a2, 4 * a3, 0), Value(4 * b0 + bt, 4 * b1, 4 * b2, 4 * b3, 0),
                  Value(4 * c0 + ct, 4 * c1, 4 * c2, 4 * c3, 0), Value(4 * d0 + dt, 4 * d1, 4 * d2, 4 * d3, 0),
                  Value(4 * e0 + et, 4 * e1, 4 * e2, 4 * e3, 0))
         == Value(4 * a0 + at + 5 * b3 + 5 * c2 + 5 * d1 + 5 * e0, 4 * a1 + (4 * b0 + bt) + 5 * c3 + 5 * d2 + 5 * e1,
                  4 * a2 + 4 * b1 + (4 * c0 + ct) + 5 * d3 + 5 * e2, 4 * a3 + 4 * b2 + 4 * c1 + (4 * d0 + dt) + 5 * e3, et)
            + P * (b3 + c2 + d1 + e0 + (c3 + d2 + e1) * B + (d3 + e2) * B2 + e3 * B3)
  {
  }

  // ---- carries ------------------------------------------------------------------------------------------------------------

  /** Carrying upwards and folding the bits from 130 on back to the bottom keeps the residue. */
  lemma Carried(x0: int, x1: int, x2: int, x3: int, x4: int, u0: int, u1: int, u2: int, u3: int, u5: int)
    requires u5 == x4 + x3 / B && u0 == u5 / 4 * 5 + x0 % B
    requires u1 == u0 / B + x1 % B + x0 / B && u2 == u1 / B + x2 % B + x1 / B && u3 == u2 / B + x3 % B + x2 / B
    ensures Value(x0, x1, x2, x3, x4) == Value(u0 % B, u1 % B, u2 % B, u3 % B, u3 / B + u5 % 4) + P * (u5 / 4)
  {
  }

  lemma MulBound(s: int, S: int, r: int, R: int)
    requires 0 <= s <= S && 0 <= r <= R
    ensures 0 <= s * r <= S * R
  {
  }

  /** The largest limb of h plus a block, and the largest clamped limbs. */
  const MAX_SUM := 0x1_fffffffe
  const MAX_R0 := 0x0fffffff
  const MAX_Q := 0x03ffffff

  lemma RowBounds(s: int, S: int, q0: int, t: int, q1: int, q2: int, q3: int)
    requires 0 <= s <= S && 0 <= q0 <= MAX_Q && 0 <= t < 4
    requires 0 <= q1 <= MAX_Q && 0 <= q2 <= MAX_Q && 0 <= q3 <= MAX_Q
    ensures 0 <= s * (4 * q0 + t) <= S * MAX_R0 && 0 <= s * (5 * q0) <= S * (5 * MAX_Q)
    ensures 0 <= s * (4 * q1) <= S * MAX_R0 && 0 <= s * (5 * q1) <= S * (5 * MAX_Q)
    ensures 0 <= s * (4 * q2) <= S * MAX_R0 && 0 <= s * (5 * q2) <= S * (5 * MAX_Q)
    ensures 0 <= s * (4 * q3) <= S * MAX_R0 && 0 <= s * (5 * q3) <= S * (5 * MAX_Q)
  {
    MulBound(s, S, 4 * q0 + t, MAX_R0); MulBound(s, S, 5 * q0, 5 * MAX_Q);
    MulBound(s, S, 4 * q1, MAX_R0); MulBound(s, S, 5 * q1, 5 * MAX_Q);
    MulBound(s, S, 4 * q2, MAX_R0); MulBound(s, S, 5 * q2, 5 * MAX_Q);
    MulBound(s, S, 4 * q3, MAX_R0); MulBound(s, S, 5 * q3, 5 * MAX_Q);
  }

  /** No column overflows 64 bits; the last two are smaller still. */
  lemma ColumnBounds(s0: int, s1: int, s2: int, s3: int, s4: int, q0: int, t: int, q1: int, q2: int, q3: int)
    requires 0 <= s0 <= MAX_SUM && 0 <= s1 <= MAX_SUM && 0 <= s2 <= MAX_SUM && 0 <= s3 <= MAX_SUM && 0 <= s4 <= 5
    requires 0 <= q0 <= MAX_Q && 0 <= t < 4 && 0 <= q1 <= MAX_Q && 0 <= q2 <= MAX_Q && 0 <= q3 <= MAX_Q
    ensures 0 <= Column0(s0, s1, s2, s3, s4, q0, t, q1, q2, q3) < B2
    ensures 0 <= Column1(s0, s1, s2, s3, s4, q0, t, q1, q2, q3) < B2
    ensures 0 <= Column2(s0, s1, s2, s3, s4, q0, t, q1, q2, q3) < 0x9000_0000 * B
    ensures 0 <= Column3(s0, s1, s2, s3, s4, q0, t, q1, q2, q3) < 0x8000_0000 * B
    ensures 0 <= s4 * t <= 15
  {
    RowBounds(s0, MAX_SUM, q0, t, q1, q2, q3);
    RowBounds(s1, MAX_SUM, q0, t, q1, q2, q3);
    RowBounds(s2, MAX_SUM, q0, t, q1, q2, q3);
    RowBounds(s3, MAX_SUM, q0, t, q1, q2, q3);
    RowBounds(s4, 5, q0, t, q1, q2, q3);
    MulBound(s4, 5, t, 3);
  }

  // ---- one block ------------------------------------------------------------------------------------------------------------

  /** What a hash state may be between blocks. */
  predicate Reduced(h0: nat, h1: nat, h2: nat, h3: nat, h4: nat) {
    h0 < B && h1 < B && h2 < B && h3 < B && h4 <= 4
  }

  /** The top four bits of each clamped limb are clear, and the low two of all but the first. */
  predicate Clamped(r0: nat, r1: nat, r2: nat, r3: nat) {
    && r0 <= 0x0fffffff && r1 <= 0x0ffffffc && r2 <= 0x0ffffffc && r3 <= 0x0ffffffc
    && r1 % 4 == 0 && r2 % 4 == 0 && r3 % 4 == 0
  }

  /** (h + c) * r, partially reduced.  Every product is a value of its own, of the width the machine computes it in: 64
      bits where one factor has 64, and 32 bits for the products of the top limb. */
  method Block(h0: u32, h1: u32, h2: u32, h3: u32, h4: u32, c0: u32, c1: u32, c2: u32, c3: u32, end: nat,
               r0: u32, r1: u32, r2: u32, r3: u32)
    returns (n0: u32, n1: u32, n2: u32, n3: u32, n4: u32, ghost k: int)
    requires Reduced(h0, h1, h2, h3, h4) && Clamped(r0, r1, r2, r3) && end <= 1
    ensures Reduced(n0, n1, n2, n3, n4)
    ensures (Value(h0, h1, h2, h3, h4) + Value(c0, c1, c2, c3, end)) * Value(r0, r1, r2, r3, 0) == Value(n0, n1, n2, n3, n4) + P * k
  {
    hide Column0, Column1, Column2, Column3, Value, Dot;
    var rr0: u32 := r0 / 4 * 5;
    var rr1: u32 := r1 / 4 + r1;
    var rr2: u32 := r2 / 4 + r2;
    var rr3: u32 := r3 / 4 + r3;
    var rr4: u32 := r0 % 4;
    var s0: u64 := h0 + c0;
    var s1: u64 := h1 + c1;
    var s2: u64 := h2 + c2;
    var s3: u64 := h3 + c3;
    var s4: u32 := h4 + end;
    ghost var q0, q1, q2, q3 := r0 / 4, r1 / 4, r2 / 4, r3 / 4;
    assert r0 == 4 * q0 + rr4 && r1 == 4 * q1 && r2 == 4 * q2 && r3 == 4 * q3;
    assert rr0 == 5 * q0 && rr1 == 5 * q1 && rr2 == 5 * q2 && rr3 == 5 * q3;
    ColumnBounds(s0, s1, s2, s3, s4, q0, rr4, q1, q2, q3);
    ColumnsIn(s0, s1, s2, s3, s4, q0, rr4, q1, q2, q3, r0, r1, r2, r3, rr0, rr1, rr2, rr3);
    var t0 := TopProduct(s4, rr0);
    var t1 := TopProduct(s4, rr1);
    var t2 := TopProduct(s4, rr2);
    var t3 := TopProduct(s4, rr3);
    var x0 := Column(s0, r0, s1, rr3, s2, rr2, s3, rr1, t0);
    var x1 := Column(s0, r1, s1, r0, s2, rr3, s3, rr2, t1);
    var x2 := Column(s0, r2, s1, r1, s2, r0, s3, rr3, t2);
    var x3 := Column(s0, r3, s1, r2, s2, r1, s3, r0, t3);
    var x4: u32 := s4 * rr4;
    ghost var folded := ProductColumns(s0, s1, s2, s3, s4, q0, rr4, q1, q2, q3);
    n0, n1, n2, n3, n4, k := Reduce(x0, x1, x2, x3, x4);
    k := k + folded;
    Added(h0, h1, h2, h3, h4, c0, c1, c2, c3, end);
    assert P * k == P * (k - folded) + P * folded;
  }

  function Dot(a0: int, b0: int, a1: int, b1: int, a2: int, b2: int, a3: int, b3: int, top: int): int {
    a0 * b0 + a1 * b1 + a2 * b2 + a3 * b3 + top
  }

  /** One column, product by product and sum by sum. */
  method Column(a0: u64, b0: u32, a1: u64, b1: u32, a2: u64, b2: u32, a3: u64, b3: u32, top: u32) returns (x: u64)
    requires Dot(a0, b0, a1, b1, a2, b2, a3, b3, top) < B2
    ensures x == Dot(a0, b0, a1, b1, a2, b2, a3, b3, top)
  {
    var m0, m1, m2, m3 := a0 * b0, a1 * b1, a2 * b2, a3 * b3;
    assert m0 >= 0 && m1 >= 0 && m2 >= 0 && m3 >= 0;
    var y0: u64 := m0;
    var y1: u64 := m1;
    var y2: u64 := m2;
    var y3: u64 := m3;
    var z1: u64 := y0 + y1;
    var z2: u64 := z1 + y2;
    var z3: u64 := z2 + y3;
    x := z3 + top;
  }

  /** The products of the top limb fit 32 bits. */
  method TopProduct(s4: u32, rr: u32) returns (t: u32)
    requires s4 <= 5 && rr <= 5 * MAX_Q
    ensures t == s4 * rr
  {
    MulBound(s4, 5, rr, 5 * MAX_Q);
    t := s4 * rr;
  }

  lemma Added(h0: nat, h1: nat, h2: nat, h3: nat, h4: nat, c0: nat, c1: nat, c2: nat, c3: nat, end: nat)
    ensures Value(h0, h1, h2, h3, h4) + Value(c0, c1, c2, c3, end) == Value(h0 + c0, h1 + c1, h2 + c2, h3 + c3, h4 + end)
  {
  }

  lemma ColumnsIn(s0: int, s1: int, s2: int, s3: int, s4: int, q0: int, t: int, q1: int, q2: int, q3: int,
                  r0: int, r1: int, r2: int, r3: int, rr0: int, rr1: int, rr2: int, rr3: int)
    requires r0 == 4 * q0 + t && r1 == 4 * q1 && r2 == 4 * q2 && r3 == 4 * q3
    requires rr0 == 5 * q0 && rr1 == 5 * q1 && rr2 == 5 * q2 && rr3 == 5 * q3
    ensures Dot(s0, r0, s1, rr3, s2, rr2, s3, rr1, s4 * rr0) == Column0(s0, s1, s2, s3, s4, q0, t, q1, q2, q3)
    ensures Dot(s0, r1, s1, r0, s2, rr3, s3, rr2, s4 * rr1) == Column1(s0, s1, s2, s3, s4, q0, t, q1, q2, q3)
    ensures Dot(s0, r2, s1, r1, s2, r0, s3, rr3, s4 * rr2) == Column2(s0, s1, s2, s3, s4, q0, t, q1, q2, q3)
    ensures Dot(s0, r3, s1, r2, s2, r1, s3, r0, s4 * rr3) == Column3(s0, s1, s2, s3, s4, q0, t, q1, q2, q3)
  {
  }

  /** Partial reduction modulo 2^130 - 5. */
  method Reduce(x0: u64, x1: u64, x2: u64, x3: u64, x4: u32) returns (n0: u32, n1: u32, n2: u32, n3: u32, n4: u32, ghost k: int)
    requires x2 < 0x9000_0000 * B && x3 < 0x8000_0000 * B && x4 <= 15
    ensures Reduced(n0, n1, n2, n3, n4)
    ensures Value(x0, x1, x2, x3, x4) == Value(n0, n1, n2, n3, n4) + P * k
  {
    hide Value;
    var high: u32 := x3 / B;
    var u5: u32 := x4 + high;
    var fold: u32 := u5 / 4 * 5;
    var u0: u64 := fold + x0 % B;
    var v1: u64 := u0 / B + x1 % B;
    var u1: u64 := v1 + x0 / B;
    var v2: u64 := u1 / B + x2 % B;
    var u2: u64 := v2 + x1 / B;
    var v3: u64 := u2 / B + x3 % B;
    var u3: u64 := v3 + x2 / B;
    var u4: u32 := u3 / B + u5 % 4;
    n0, n1, n2, n3, n4 := u0 % B, u1 % B, u2 % B, u3 % B, u4;
    k := u5 / 4;
    Carried(x0, x1, x2, x3, x4, u0, u1, u2, u3, u5);
  }
}
