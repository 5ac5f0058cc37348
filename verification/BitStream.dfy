/** Bit packing: numbers as big-endian bit strings, bytes as eight bits, and reading them back. */
module BitStream {
  import opened Bits

  // ---- numbers and bit strings --------------------------------------------------------------------------------

  function Pow2(k: nat): (r: nat)
    ensures r > 0
  {
    if k == 0 then 1 else 2 * Pow2(k - 1)
  }

  /** The `count` low bits of value, most significant first. */
  function BitsOf(value: nat, count: nat): (b: seq<bool>)
    ensures |b| == count
  {
    if count == 0 then [] else BitsOf(value / 2, count - 1) + [value % 2 == 1]
  }

  function Value(b: seq<bool>): nat {
    if b == [] then 0 else 2 * Value(b[..|b| - 1]) + if b[|b| - 1] then 1 else 0
  }

  lemma {:induction false} ValueOfBits(value: nat, count: nat)
    requires value < Pow2(count)
    ensures Value(BitsOf(value, count)) == value
  {
    if count > 0 {
      ValueOfBits(value / 2, count - 1);
      assert BitsOf(value, count)[..count - 1] == BitsOf(value / 2, count - 1);
    }
  }

  /** Bit k counted from the top is a shift and a parity. */
  lemma {:induction false} BitsOfAt(value: nat, count: nat, k: nat)
    requires k < count
    ensures BitsOf(value, count)[k] <==> value / Pow2(count - 1 - k) % 2 == 1
  {
    if k == count - 1 {
      assert value / Pow2(0) == value;
    } else {
      BitsOfAt(value / 2, count - 1, k);
      HalveShift(value, count - 2 - k);
    }
  }

  lemma HalveShift(value: nat, k: nat)
    ensures value / 2 / Pow2(k) == value / Pow2(k + 1)
  {
    var d := Pow2(k);
    var h, low := value / 2, value % 2;
    var q, r := h / d, h % d;
    assert value == 2 * h + low && h == d * q + r;
    assert value == (2 * d) * q + (2 * r + low);
    ModUnique(value, 2 * d, q, 2 * r + low);
  }

  // ---- bytes --------------------------------------------------------------------------------------------------

  /** Bit k of a byte, the top bit first. */
  function BitAt(b: nat, k: nat): bool
    requires k < 8
  {
    BitsOf(b, 8)[k]
  }

  /** Bit i of a byte string. */
  function StreamBit(bytes: seq<nat>, i: nat): bool
    requires i < 8 * |bytes|
  {
    BitAt(bytes[i / 8], i % 8)
  }

  /** A byte as the sum of its bits. */
  lemma ByteFromBits(b: nat)
    requires b < 256
    ensures Value(BitsOf(b, 8)) == b
  {
    assert Pow2(8) == 256 by { PowersOfTwo(); }
    ValueOfBits(b, 8);
  }

  lemma PowersOfTwo()
    ensures Pow2(0) == 1 && Pow2(1) == 2 && Pow2(2) == 4 && Pow2(3) == 8 && Pow2(4) == 16
    ensures Pow2(5) == 32 && Pow2(6) == 64 && Pow2(7) == 128 && Pow2(8) == 256
  {
    assert Pow2(2) == 4;
    assert Pow2(4) == 16;
    assert Pow2(6) == 64;
  }

  /** Bytes with the same bits are the same byte. */
  lemma SameBitsSameByte(a: nat, b: nat)
    requires a < 256 && b < 256 && forall k :: 0 <= k < 8 ==> BitAt(a, k) == BitAt(b, k)
    ensures a == b
  {
    ByteFromBits(a);
    ByteFromBits(b);
    forall k | 0 <= k < 8 ensures BitsOf(a, 8)[k] == BitsOf(b, 8)[k] {
      assert BitAt(a, k) == BitAt(b, k);
    }
    assert BitsOf(a, 8) == BitsOf(b, 8);
  }

  // ---- setting a bit --------------------------------------------------------------------------------------------

  /** b | (0x80 >> k). */
  function SetBit(b: nat, k: nat): nat
    requires k < 8
  {
    if BitAt(b, k) then b else b + Pow2(7 - k)
  }

  lemma {:induction false} AddBit(b: nat, count: nat, k: nat, j: nat)
    requires k < count && j < count && !BitsOf(b, count)[k]
    ensures BitsOf(b + Pow2(count - 1 - k), count)[j] == (j == k || BitsOf(b, count)[j])
  {
    if k == count - 1 {
      assert Pow2(0) == 1;
      assert (b + 1) / 2 == b / 2;
    } else {
      var p := Pow2(count - 2 - k);
      assert Pow2(count - 1 - k) == 2 * p;
      assert (b + 2 * p) / 2 == b / 2 + p;
      if j < count - 1 {
        AddBit(b / 2, count - 1, k, j);
      }
    }
  }

  lemma SetBitAt(b: nat, k: nat, j: nat)
    requires k < 8 && j < 8
    ensures BitAt(SetBit(b, k), j) == (j == k || BitAt(b, j))
  {
    if !BitAt(b, k) {
      AddBit(b, 8, k, j);
    }
  }

  lemma {:induction false} AddBitSmall(b: nat, count: nat, k: nat)
    requires k < count && !BitsOf(b, count)[k] && b < Pow2(count)
    ensures b + Pow2(count - 1 - k) < Pow2(count)
  {
    hide Pow2;
    NextPow2(count - 1);
    if k == count - 1 {
      assert BitsOf(b, count)[k] == (b % 2 == 1);
      hide BitsOf;
      EvenBound(b, Pow2(count - 1));
    } else {
      NextPow2(count - 2 - k);
      assert BitsOf(b, count)[k] == BitsOf(b / 2, count - 1)[k];
      hide BitsOf;
      AddBitSmall(b / 2, count - 1, k);
      HalfBound(b, Pow2(count - 2 - k), Pow2(count - 1));
    }
  }

  lemma NextPow2(n: nat)
    ensures Pow2(n + 1) == 2 * Pow2(n) && Pow2(0) == 1
  {
  }

  lemma EvenBound(b: nat, m: nat)
    requires b % 2 != 1 && b < 2 * m
    ensures b + 1 < 2 * m
  {
  }

  lemma HalfBound(b: nat, p: nat, m: nat)
    requires b / 2 + p < m
    ensures b + 2 * p < 2 * m
  {
  }

  lemma SetBitByte(b: nat, k: nat)
    requires k < 8 && b < 256
    ensures SetBit(b, k) < 256
  {
    PowersOfTwo();
    if !BitAt(b, k) {
      AddBitSmall(b, 8, k);
    }
  }

  lemma {:induction false} NoBits(count: nat, k: nat)
    requires k < count
    ensures !BitsOf(0, count)[k]
  {
    if k < count - 1 {
      NoBits(count - 1, k);
    }
  }
}
