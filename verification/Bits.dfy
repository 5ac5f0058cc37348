/** Exclusive or on natural numbers, bit by bit from the low end, and its laws.

    Bytes and field elements are numbers throughout; `Xor` is the `^` of both programs. */
module Bits {

  type byte = x: nat | x < 256

  function Xor(a: nat, b: nat): nat {
    if a == 0 then b
    else if b == 0 then a
    else (if a % 2 == b % 2 then 0 else 1) + 2 * Xor(a / 2, b / 2)
  }

  lemma {:induction false} XorStep(a: nat, b: nat)
    ensures Xor(a, b) % 2 == (if a % 2 == b % 2 then 0 else 1)
    ensures Xor(a, b) / 2 == Xor(a / 2, b / 2)
  {
    if a != 0 && b != 0 {
      var bit, rest := if a % 2 == b % 2 then 0 else 1, Xor(a / 2, b / 2);
      assert Xor(a, b) == bit + 2 * rest;
    } else if a == 0 {
      assert Xor(0, b / 2) == b / 2;
    } else {
      assert Xor(a / 2, 0) == a / 2;
    }
  }

  lemma {:induction false} XorComm(a: nat, b: nat)
    ensures Xor(a, b) == Xor(b, a)
  {
    if a != 0 && b != 0 {
      XorComm(a / 2, b / 2);
    }
  }

  lemma {:induction false} XorAssoc(a: nat, b: nat, c: nat)
    ensures Xor(Xor(a, b), c) == Xor(a, Xor(b, c))
  {
    hide Xor;
    if a == 0 || b == 0 || c == 0 {
      XorZero(a); XorZero(b); XorZero(c); XorZero(Xor(a, b)); XorZero(Xor(b, c));
    } else {
      XorAssoc(a / 2, b / 2, c / 2);
      XorStep(a, b); XorStep(b, c);
      XorStep(Xor(a, b), c); XorStep(a, Xor(b, c));
    }
  }

  lemma XorZero(a: nat)
    ensures Xor(a, 0) == a && Xor(0, a) == a
  {
  }

  lemma {:induction false} XorSelf(a: nat)
    ensures Xor(a, a) == 0
  {
    if a != 0 {
      XorSelf(a / 2);
    }
  }

  /** Equal numbers are those whose exclusive or vanishes. */
  lemma XorEq(a: nat, b: nat)
    ensures Xor(a, b) == 0 <==> a == b
  {
    if Xor(a, b) == 0 {
      XorCancel(a, b);
      XorZero(b);
    }
    XorSelf(a);
  }

  lemma XorCancel(a: nat, b: nat)
    ensures Xor(Xor(a, b), b) == a && Xor(b, Xor(b, a)) == a
  {
    hide Xor;
    XorAssoc(a, b, b); XorAssoc(b, b, a);
    XorSelf(b);
    XorZero(a);
  }

  /** Regrouping four terms. */
  lemma XorSwap(a: nat, b: nat, c: nat, d: nat)
    ensures Xor(Xor(a, b), Xor(c, d)) == Xor(Xor(a, c), Xor(b, d))
  {
    hide Xor;
    XorAssoc(a, b, Xor(c, d));
    XorAssoc(b, c, d);
    XorComm(b, c);
    XorAssoc(c, b, d);
    XorAssoc(a, c, Xor(b, d));
  }

  // ---- powers of two --------------------------------------------------------------------------

  predicate IsPow2(n: nat) {
    n == 1 || (n > 0 && n % 2 == 0 && IsPow2(n / 2))
  }

  lemma {:induction false} XorCut(n: nat, a: nat, b: nat)
    requires IsPow2(n)
    ensures Xor(a, b) % n == Xor(a % n, b % n)
  {
    if n > 1 {
      hide Xor;
      XorCut(n / 2, a / 2, b / 2);
      XorStep(a, b);
      XorStep(a % n, b % n);
      HalfMod(a, n / 2); HalfMod(b, n / 2); HalfMod(Xor(a, b), n / 2);
    }
  }

  lemma HalfMod(a: nat, m: nat)
    requires m > 0
    ensures (a % (2 * m)) / 2 == (a / 2) % m && (a % (2 * m)) % 2 == a % 2
  {
    var h := a / 2;
    var q, r := h / m, h % m;
    var low := a % 2;
    assert a == 2 * h + low && h == m * q + r;
    assert a == (2 * m) * q + (2 * r + low);
    assert 0 <= 2 * r + low < 2 * m;
    ModUnique(a, 2 * m, q, 2 * r + low);
  }

  lemma ModUnique(a: nat, d: nat, q: nat, r: nat)
    requires r < d && a == d * q + r
    ensures a % d == r && a / d == q
  {
    var k := a / d - q;
    assert d * (a / d) + a % d == d * q + r;
    assert d * k == r - a % d by { Spread(d, a / d, q); }
    if k >= 1 {
      Scale(d, k);
    } else if k <= -1 {
      Scale(d, -k);
    }
  }

  lemma Spread(d: int, x: int, y: int)
    ensures d * (x - y) == d * x - d * y
  {
  }

  lemma Scale(d: int, k: int)
    requires d >= 0 && k >= 1
    ensures d * k >= d && d * (-k) <= -d
  {
    Spread(d, k, 1);
    assert d * (k - 1) >= 0;
    Spread(d, 0, k);
  }

  lemma XorLess(n: nat, a: nat, b: nat)
    requires IsPow2(n) && a < n && b < n
    ensures Xor(a, b) < n
  {
    XorCut(n, a, b);
    assert Xor(a, b) % n < n;
  }

  /** The top bit of an exclusive or. */
  lemma {:induction false} XorTop(n: nat, a: nat, b: nat)
    requires IsPow2(n) && a < 2 * n && b < 2 * n
    ensures Xor(a, b) >= n <==> (a >= n) != (b >= n)
    ensures Xor(a, b) < 2 * n
  {
    if n == 1 {
    } else {
      hide Xor;
      XorTop(n / 2, a / 2, b / 2);
      XorStep(a, b);
    }
  }

  lemma XorDouble(a: nat, b: nat)
    ensures Xor(2 * a, 2 * b) == 2 * Xor(a, b)
  {
  }
}
