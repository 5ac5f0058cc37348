/** The decoder's literal exponent and logarithm tables, and the proof that they describe fields. */
module Tables {
  import opened Bits
  import opened Galois

  // ---- the literal tables of GF(256), sixteen entries a row ------------------------------------

  const Exp256: seq<seq<nat>> := [
    [0x01, 0x02, 0x04, 0x08, 0x10, 0x20, 0x40, 0x80, 0x1d, 0x3a, 0x74, 0xe8, 0xcd, 0x87, 0x13, 0x26],
    [0x4c, 0x98, 0x2d, 0x5a, 0xb4, 0x75, 0xea, 0xc9, 0x8f, 0x03, 0x06, 0x0c, 0x18, 0x30, 0x60, 0xc0],
    [0x9d, 0x27, 0x4e, 0x9c, 0x25, 0x4a, 0x94, 0x35, 0x6a, 0xd4, 0xb5, 0x77, 0xee, 0xc1, 0x9f, 0x23],
    [0x46, 0x8c, 0x05, 0x0a, 0x14, 0x28, 0x50, 0xa0, 0x5d, 0xba, 0x69, 0xd2, 0xb9, 0x6f, 0xde, 0xa1],
    [0x5f, 0xbe, 0x61, 0xc2, 0x99, 0x2f, 0x5e, 0xbc, 0x65, 0xca, 0x89, 0x0f, 0x1e, 0x3c, 0x78, 0xf0],
    [0xfd, 0xe7, 0xd3, 0xbb, 0x6b, 0xd6, 0xb1, 0x7f, 0xfe, 0xe1, 0xdf, 0xa3, 0x5b, 0xb6, 0x71, 0xe2],
    [0xd9, 0xaf, 0x43, 0x86, 0x11, 0x22, 0x44, 0x88, 0x0d, 0x1a, 0x34, 0x68, 0xd0, 0xbd, 0x67, 0xce],
    [0x81, 0x1f, 0x3e, 0x7c, 0xf8, 0xed, 0xc7, 0x93, 0x3b, 0x76, 0xec, 0xc5, 0x97, 0x33, 0x66, 0xcc],
    [0x85, 0x17, 0x2e, 0x5c, 0xb8, 0x6d, 0xda, 0xa9, 0x4f, 0x9e, 0x21, 0x42, 0x84, 0x15, 0x2a, 0x54],
    [0xa8, 0x4d, 0x9a, 0x29, 0x52, 0xa4, 0x55, 0xaa, 0x49, 0x92, 0x39, 0x72, 0xe4, 0xd5, 0xb7, 0x73],
    [0xe6, 0xd1, 0xbf, 0x63, 0xc6, 0x91, 0x3f, 0x7e, 0xfc, 0xe5, 0xd7, 0xb3, 0x7b, 0xf6, 0xf1, 0xff],
    [0xe3, 0xdb, 0xab, 0x4b, 0x96, 0x31, 0x62, 0xc4, 0x95, 0x37, 0x6e, 0xdc, 0xa5, 0x57, 0xae, 0x41],
    [0x82, 0x19, 0x32, 0x64, 0xc8, 0x8d, 0x07, 0x0e, 0x1c, 0x38, 0x70, 0xe0, 0xdd, 0xa7, 0x53, 0xa6],
    [0x51, 0xa2, 0x59, 0xb2, 0x79, 0xf2, 0xf9, 0xef, 0xc3, 0x9b, 0x2b, 0x56, 0xac, 0x45, 0x8a, 0x09],
    [0x12, 0x24, 0x48, 0x90, 0x3d, 0x7a, 0xf4, 0xf5, 0xf7, 0xf3, 0xfb, 0xeb, 0xcb, 0x8b, 0x0b, 0x16],
    [0x2c, 0x58, 0xb0, 0x7d, 0xfa, 0xe9, 0xcf, 0x83, 0x1b, 0x36, 0x6c, 0xd8, 0xad, 0x47, 0x8e, 0x01]]

  const Log256: seq<seq<nat>> := [
    [0x00, 0xff, 0x01, 0x19, 0x02, 0x32, 0x1a, 0xc6, 0x03, 0xdf, 0x33, 0xee, 0x1b, 0x68, 0xc7, 0x4b],
    [0x04, 0x64, 0xe0, 0x0e, 0x34, 0x8d, 0xef, 0x81, 0x1c, 0xc1, 0x69, 0xf8, 0xc8, 0x08, 0x4c, 0x71],
    [0x05, 0x8a, 0x65, 0x2f, 0xe1, 0x24, 0x0f, 0x21, 0x35, 0x93, 0x8e, 0xda, 0xf0, 0x12, 0x82, 0x45],
    [0x1d, 0xb5, 0xc2, 0x7d, 0x6a, 0x27, 0xf9, 0xb9, 0xc9, 0x9a, 0x09, 0x78, 0x4d, 0xe4, 0x72, 0xa6],
    [0x06, 0xbf, 0x8b, 0x62, 0x66, 0xdd, 0x30, 0xfd, 0xe2, 0x98, 0x25, 0xb3, 0x10, 0x91, 0x22, 0x88],
    [0x36, 0xd0, 0x94, 0xce, 0x8f, 0x96, 0xdb, 0xbd, 0xf1, 0xd2, 0x13, 0x5c, 0x83, 0x38, 0x46, 0x40],
    [0x1e, 0x42, 0xb6, 0xa3, 0xc3, 0x48, 0x7e, 0x6e, 0x6b, 0x3a, 0x28, 0x54, 0xfa, 0x85, 0xba, 0x3d],
    [0xca, 0x5e, 0x9b, 0x9f, 0x0a, 0x15, 0x79, 0x2b, 0x4e, 0xd4, 0xe5, 0xac, 0x73, 0xf3, 0xa7, 0x57],
    [0x07, 0x70, 0xc0, 0xf7, 0x8c, 0x80, 0x63, 0x0d, 0x67, 0x4a, 0xde, 0xed, 0x31, 0xc5, 0xfe, 0x18],
    [0xe3, 0xa5, 0x99, 0x77, 0x26, 0xb8, 0xb4, 0x7c, 0x11, 0x44, 0x92, 0xd9, 0x23, 0x20, 0x89, 0x2e],
    [0x37, 0x3f, 0xd1, 0x5b, 0x95, 0xbc, 0xcf, 0xcd, 0x90, 0x87, 0x97, 0xb2, 0xdc, 0xfc, 0xbe, 0x61],
    [0xf2, 0x56, 0xd3, 0xab, 0x14, 0x2a, 0x5d, 0x9e, 0x84, 0x3c, 0x39, 0x53, 0x47, 0x6d, 0x41, 0xa2],
    [0x1f, 0x2d, 0x43, 0xd8, 0xb7, 0x7b, 0xa4, 0x76, 0xc4, 0x17, 0x49, 0xec, 0x7f, 0x0c, 0x6f, 0xf6],
    [0x6c, 0xa1, 0x3b, 0x52, 0x29, 0x9d, 0x55, 0xaa, 0xfb, 0x60, 0x86, 0xb1, 0xbb, 0xcc, 0x3e, 0x5a],
    [0xcb, 0x59, 0x5f, 0xb0, 0x9c, 0xa9, 0xa0, 0x51, 0x0b, 0xf5, 0x16, 0xeb, 0x7a, 0x75, 0x2c, 0xd7],
    [0x4f, 0xae, 0xd5, 0xe9, 0xe6, 0xe7, 0xad, 0xe8, 0x74, 0xd6, 0xf4, 0xea, 0xa8, 0x50, 0x58, 0xaf]]

  predicate Square(rows: seq<seq<nat>>) {
    |rows| == 16 && forall r :: 0 <= r < 16 ==> |rows[r]| == 16
  }

  function At(rows: seq<seq<nat>>, k: nat): nat
    requires Square(rows) && k < 256
  {
    rows[k / 16][k % 16]
  }

  lemma Shape()
    ensures Square(Exp256) && Square(Log256)
  {
  }

  /** GF(256) with generator polynomial x^8 + x^4 + x^3 + x^2 + 1; note log[0] = 0 and log[1] = 255. */
  function Tables256(): Field {
    Shape();
    Field(255,
          seq(256, k requires 0 <= k < 256 => At(Exp256, k)),
          seq(256, k requires 0 <= k < 256 => At(Log256, k)),
          256, 0x11d)
  }

  /** GF(16) with generator polynomial x^4 + x + 1. */
  function Tables16(): Field {
    Field(15,
          [0x01, 0x02, 0x04, 0x08, 0x03, 0x06, 0x0c, 0x0b, 0x05, 0x0a, 0x07, 0x0e, 0x0f, 0x0d, 0x09, 0x01],
          [0x00, 0x0f, 0x01, 0x04, 0x02, 0x08, 0x05, 0x0a, 0x03, 0x0e, 0x09, 0x07, 0x06, 0x0d, 0x0b, 0x0c],
          16, 0x13)
  }

  // ---- one generator step in decimal digits ----------------------------------------------------

  function Flip(x: nat, n: int): int {
    if x % 2 == 0 then n else -n
  }

  /** Doubling and, past 255, flipping bits 8, 4, 3, 2 and 0 (a doubled number has bit 0 clear). */
  function Digits256(x: nat): int {
    if x < 128 then 2 * x
    else 2 * x - 255 + Flip(x / 2, 4) + Flip(x / 4, 8) + Flip(x / 8, 16)
  }

  lemma XorDigit(a: nat, b: nat, a': nat, d: nat)
    requires d < 2 && a == 2 * a' + d
    ensures Xor(a, b) == (if d == b % 2 then 0 else 1) + 2 * Xor(a', b / 2)
  {
    hide Xor;
    XorStep(a, b);
  }

  lemma XorTail(y: nat)
    ensures Xor(y, 71) == (1 - y % 2) + 2 * (1 - y / 2 % 2) + 4 * (1 - y / 4 % 2) + 8 * Xor(y / 8, 8)
  {
    hide Xor;
    XorDigit(y, 71, y / 2, y % 2);
    XorDigit(y / 2, 35, y / 4, y / 2 % 2);
    XorDigit(y / 4, 17, y / 8, y / 4 % 2);
  }

  lemma XorLow(x: nat)
    ensures Xor(2 * x, 0x11d) == 1 + 2 * (x % 2) + 4 * (1 - x / 2 % 2) + 8 * (1 - x / 4 % 2) + 16 * (1 - x / 8 % 2)
                                   + 32 * Xor(x / 16, 8)
  {
    hide Xor;
    XorDigit(2 * x, 285, x, 0);
    XorDigit(x, 142, x / 2, x % 2);
    XorTail(x / 2);
  }

  lemma XorEight(y: nat)
    requires 8 <= y < 16
    ensures Xor(y, 8) == y - 8
  {
    hide Xor;
    XorDigit(y, 8, y / 2, y % 2);
    XorDigit(y / 2, 4, y / 4, y / 2 % 2);
    XorDigit(y / 4, 2, y / 8, y / 4 % 2);
    XorSelf(1);
  }

  lemma FiveBits(x: nat)
    ensures x == 16 * (x / 16) + 8 * (x / 8 % 2) + 4 * (x / 4 % 2) + 2 * (x / 2 % 2) + x % 2
  {
    assert x == 2 * (x / 2) + x % 2;
    assert x / 2 == 2 * (x / 4) + x / 2 % 2;
    assert x / 4 == 2 * (x / 8) + x / 4 % 2;
    assert x / 8 == 2 * (x / 16) + x / 8 % 2;
  }

  lemma StepIsDigits(x: nat)
    requires x < 256
    ensures (if 2 * x >= 256 then Xor(2 * x, 0x11d) else 2 * x) == Digits256(x)
  {
    hide Xor;
    if x >= 128 {
      XorLow(x);
      XorEight(x / 16);
      FiveBits(x);
      FlipBit(x / 2, 4); FlipBit(x / 4, 8); FlipBit(x / 8, 16);
      hide Flip;
    }
  }

  lemma FlipBit(x: nat, n: int)
    ensures Flip(x, n) == n - 2 * (x % 2) * n
  {
  }

  // ---- GF(256), row by row ---------------------------------------------------------------------

  /** The logarithm table inverts every exponent entry of a row (the entry 1 has logarithm 255). */
  ghost predicate LogRow(r: nat)
    requires r < 16 && Square(Exp256) && Square(Log256)
  {
    forall c :: 0 <= c < 16 ==>
      var x := Exp256[r][c];
      0 < x < 256 && At(Log256, x) == if x == 1 then 255 else 16 * r + c
  }

  /** Every exponent entry of a row steps to the next one. */
  ghost predicate StepRow(r: nat)
    requires r < 16 && Square(Exp256)
  {
    forall c :: 0 <= c < 15 ==> Exp256[r][c + 1] == Digits256(Exp256[r][c])
  }

  lemma Left0()
    requires Square(Exp256) && Square(Log256)
    ensures forall c :: 0 <= c < 8 ==>
      0 < Exp256[0][c] < 256 && At(Log256, Exp256[0][c]) == if Exp256[0][c] == 1 then 255 else 0 + c
  {
  }

  lemma Right0()
    requires Square(Exp256) && Square(Log256)
    ensures forall c :: 8 <= c < 16 ==>
      0 < Exp256[0][c] < 256 && At(Log256, Exp256[0][c]) == if Exp256[0][c] == 1 then 255 else 0 + c
  {
  }

  lemma Chain0()
    requires Square(Exp256)
    ensures forall c :: 0 <= c < 15 ==> Exp256[0][c + 1] == Digits256(Exp256[0][c])
  {
  }

  lemma Left1()
    requires Square(Exp256) && Square(Log256)
    ensures forall c :: 0 <= c < 8 ==>
      0 < Exp256[1][c] < 256 && At(Log256, Exp256[1][c]) == if Exp256[1][c] == 1 then 255 else 16 + c
  {
  }

  lemma Right1()
    requires Square(Exp256) && Square(Log256)
    ensures forall c :: 8 <= c < 16 ==>
      0 < Exp256[1][c] < 256 && At(Log256, Exp256[1][c]) == if Exp256[1][c] == 1 then 255 else 16 + c
  {
  }

  lemma Chain1()
    requires Square(Exp256)
    ensures forall c :: 0 <= c < 15 ==> Exp256[1][c + 1] == Digits256(Exp256[1][c])
  {
  }

  lemma Left2()
    requires Square(Exp256) && Square(Log256)
    ensures forall c :: 0 <= c < 8 ==>
      0 < Exp256[2][c] < 256 && At(Log256, Exp256[2][c]) == if Exp256[2][c] == 1 then 255 else 32 + c
  {
  }

  lemma Right2()
    requires Square(Exp256) && Square(Log256)
    ensures forall c :: 8 <= c < 16 ==>
      0 < Exp256[2][c] < 256 && At(Log256, Exp256[2][c]) == if Exp256[2][c] == 1 then 255 else 32 + c
  {
  }

  lemma Chain2()
    requires Square(Exp256)
    ensures forall c :: 0 <= c < 15 ==> Exp256[2][c + 1] == Digits256(Exp256[2][c])
  {
  }

  lemma Left3()
    requires Square(Exp256) && Square(Log256)
    ensures forall c :: 0 <= c < 8 ==>
      0 < Exp256[3][c] < 256 && At(Log256, Exp256[3][c]) == if Exp256[3][c] == 1 then 255 else 48 + c
  {
  }

  lemma Right3()
    requires Square(Exp256) && Square(Log256)
    ensures forall c :: 8 <= c < 16 ==>
      0 < Exp256[3][c] < 256 && At(Log256, Exp256[3][c]) == if Exp256[3][c] == 1 then 255 else 48 + c
  {
  }

  lemma Chain3()
    requires Square(Exp256)
    ensures forall c :: 0 <= c < 15 ==> Exp256[3][c + 1] == Digits256(Exp256[3][c])
  {
  }

  lemma Left4()
    requires Square(Exp256) && Square(Log256)
    ensures forall c :: 0 <= c < 8 ==>
      0 < Exp256[4][c] < 256 && At(Log256, Exp256[4][c]) == if Exp256[4][c] == 1 then 255 else 64 + c
  {
  }

  lemma Right4()
    requires Square(Exp256) && Square(Log256)
    ensures forall c :: 8 <= c < 16 ==>
      0 < Exp256[4][c] < 256 && At(Log256, Exp256[4][c]) == if Exp256[4][c] == 1 then 255 else 64 + c
  {
  }

  lemma Chain4()
    requires Square(Exp256)
    ensures forall c :: 0 <= c < 15 ==> Exp256[4][c + 1] == Digits256(Exp256[4][c])
  {
  }

  lemma Left5()
    requires Square(Exp256) && Square(Log256)
    ensures forall c :: 0 <= c < 8 ==>
      0 < Exp256[5][c] < 256 && At(Log256, Exp256[5][c]) == if Exp256[5][c] == 1 then 255 else 80 + c
  {
  }

  lemma Right5()
    requires Square(Exp256) && Square(Log256)
    ensures forall c :: 8 <= c < 16 ==>
      0 < Exp256[5][c] < 256 && At(Log256, Exp256[5][c]) == if Exp256[5][c] == 1 then 255 else 80 + c
  {
  }

  lemma Chain5()
    requires Square(Exp256)
    ensures forall c :: 0 <= c < 15 ==> Exp256[5][c + 1] == Digits256(Exp256[5][c])
  {
  }

  lemma Left6()
    requires Square(Exp256) && Square(Log256)
    ensures forall c :: 0 <= c < 8 ==>
      0 < Exp256[6][c] < 256 && At(Log256, Exp256[6][c]) == if Exp256[6][c] == 1 then 255 else 96 + c
  {
  }

  lemma Right6()
    requires Square(Exp256) && Square(Log256)
    ensures forall c :: 8 <= c < 16 ==>
      0 < Exp256[6][c] < 256 && At(Log256, Exp256[6][c]) == if Exp256[6][c] == 1 then 255 else 96 + c
  {
  }

  lemma Chain6()
    requires Square(Exp256)
    ensures forall c :: 0 <= c < 15 ==> Exp256[6][c + 1] == Digits256(Exp256[6][c])
  {
  }

  lemma Left7()
    requires Square(Exp256) && Square(Log256)
    ensures forall c :: 0 <= c < 8 ==>
      0 < Exp256[7][c] < 256 && At(Log256, Exp256[7][c]) == if Exp256[7][c] == 1 then 255 else 112 + c
  {
  }

  lemma Right7()
    requires Square(Exp256) && Square(Log256)
    ensures forall c :: 8 <= c < 16 ==>
      0 < Exp256[7][c] < 256 && At(Log256, Exp256[7][c]) == if Exp256[7][c] == 1 then 255 else 112 + c
  {
  }

  lemma Chain7()
    requires Square(Exp256)
    ensures forall c :: 0 <= c < 15 ==> Exp256[7][c + 1] == Digits256(Exp256[7][c])
  {
  }

  lemma Left8()
    requires Square(Exp256) && Square(Log256)
    ensures forall c :: 0 <= c < 8 ==>
      0 < Exp256[8][c] < 256 && At(Log256, Exp256[8][c]) == if Exp256[8][c] == 1 then 255 else 128 + c
  {
  }

  lemma Right8()
    requires Square(Exp256) && Square(Log256)
    ensures forall c :: 8 <= c < 16 ==>
      0 < Exp256[8][c] < 256 && At(Log256, Exp256[8][c]) == if Exp256[8][c] == 1 then 255 else 128 + c
  {
  }

  lemma Chain8()
    requires Square(Exp256)
    ensures forall c :: 0 <= c < 15 ==> Exp256[8][c + 1] == Digits256(Exp256[8][c])
  {
  }

  lemma Left9()
    requires Square(Exp256) && Square(Log256)
    ensures forall c :: 0 <= c < 8 ==>
      0 < Exp256[9][c] < 256 && At(Log256, Exp256[9][c]) == if Exp256[9][c] == 1 then 255 else 144 + c
  {
  }

  lemma Right9()
    requires Square(Exp256) && Square(Log256)
    ensures forall c :: 8 <= c < 16 ==>
      0 < Exp256[9][c] < 256 && At(Log256, Exp256[9][c]) == if Exp256[9][c] == 1 then 255 else 144 + c
  {
  }

  lemma Chain9()
    requires Square(Exp256)
    ensures forall c :: 0 <= c < 15 ==> Exp256[9][c + 1] == Digits256(Exp256[9][c])
  {
  }

  lemma Left10()
    requires Square(Exp256) && Square(Log256)
    ensures forall c :: 0 <= c < 8 ==>
      0 < Exp256[10][c] < 256 && At(Log256, Exp256[10][c]) == if Exp256[10][c] == 1 then 255 else 160 + c
  {
  }

  lemma Right10()
    requires Square(Exp256) && Square(Log256)
    ensures forall c :: 8 <= c < 16 ==>
      0 < Exp256[10][c] < 256 && At(Log256, Exp256[10][c]) == if Exp256[10][c] == 1 then 255 else 160 + c
  {
  }

  lemma Chain10()
    requires Square(Exp256)
    ensures forall c :: 0 <= c < 15 ==> Exp256[10][c + 1] == Digits256(Exp256[10][c])
  {
  }

  lemma Left11()
    requires Square(Exp256) && Square(Log256)
    ensures forall c :: 0 <= c < 8 ==>
      0 < Exp256[11][c] < 256 && At(Log256, Exp256[11][c]) == if Exp256[11][c] == 1 then 255 else 176 + c
  {
  }

  lemma Right11()
    requires Square(Exp256) && Square(Log256)
    ensures forall c :: 8 <= c < 16 ==>
      0 < Exp256[11][c] < 256 && At(Log256, Exp256[11][c]) == if Exp256[11][c] == 1 then 255 else 176 + c
  {
  }

  lemma Chain11()
    requires Square(Exp256)
    ensures forall c :: 0 <= c < 15 ==> Exp256[11][c + 1] == Digits256(Exp256[11][c])
  {
  }

  lemma Left12()
    requires Square(Exp256) && Square(Log256)
    ensures forall c :: 0 <= c < 8 ==>
      0 < Exp256[12][c] < 256 && At(Log256, Exp256[12][c]) == if Exp256[12][c] == 1 then 255 else 192 + c
  {
  }

  lemma Right12()
    requires Square(Exp256) && Square(Log256)
    ensures forall c :: 8 <= c < 16 ==>
      0 < Exp256[12][c] < 256 && At(Log256, Exp256[12][c]) == if Exp256[12][c] == 1 then 255 else 192 + c
  {
  }

  lemma Chain12()
    requires Square(Exp256)
    ensures forall c :: 0 <= c < 15 ==> Exp256[12][c + 1] == Digits256(Exp256[12][c])
  {
  }

  lemma Left13()
    requires Square(Exp256) && Square(Log256)
    ensures forall c :: 0 <= c < 8 ==>
      0 < Exp256[13][c] < 256 && At(Log256, Exp256[13][c]) == if Exp256[13][c] == 1 then 255 else 208 + c
  {
  }

  lemma Right13()
    requires Square(Exp256) && Square(Log256)
    ensures forall c :: 8 <= c < 16 ==>
      0 < Exp256[13][c] < 256 && At(Log256, Exp256[13][c]) == if Exp256[13][c] == 1 then 255 else 208 + c
  {
  }

  lemma Chain13()
    requires Square(Exp256)
    ensures forall c :: 0 <= c < 15 ==> Exp256[13][c + 1] == Digits256(Exp256[13][c])
  {
  }

  lemma Left14()
    requires Square(Exp256) && Square(Log256)
    ensures forall c :: 0 <= c < 8 ==>
      0 < Exp256[14][c] < 256 && At(Log256, Exp256[14][c]) == if Exp256[14][c] == 1 then 255 else 224 + c
  {
  }

  lemma Right14()
    requires Square(Exp256) && Square(Log256)
    ensures forall c :: 8 <= c < 16 ==>
      0 < Exp256[14][c] < 256 && At(Log256, Exp256[14][c]) == if Exp256[14][c] == 1 then 255 else 224 + c
  {
  }

  lemma Chain14()
    requires Square(Exp256)
    ensures forall c :: 0 <= c < 15 ==> Exp256[14][c + 1] == Digits256(Exp256[14][c])
  {
  }

  lemma Left15()
    requires Square(Exp256) && Square(Log256)
    ensures forall c :: 0 <= c < 8 ==>
      0 < Exp256[15][c] < 256 && At(Log256, Exp256[15][c]) == if Exp256[15][c] == 1 then 255 else 240 + c
  {
  }

  lemma Right15()
    requires Square(Exp256) && Square(Log256)
    ensures forall c :: 8 <= c < 16 ==>
      0 < Exp256[15][c] < 256 && At(Log256, Exp256[15][c]) == if Exp256[15][c] == 1 then 255 else 240 + c
  {
  }

  lemma Chain15()
    requires Square(Exp256)
    ensures forall c :: 0 <= c < 15 ==> Exp256[15][c + 1] == Digits256(Exp256[15][c])
  {
  }

  /** From the last entry of a row to the first of the next. */
  lemma StepAcross(r: nat)
    requires r < 15 && Square(Exp256)
    ensures Exp256[r + 1][0] == Digits256(Exp256[r][15])
  {
    if r == 0 {} else if r == 1 {} else if r == 2 {} else if r == 3 {}
    else if r == 4 {} else if r == 5 {} else if r == 6 {} else if r == 7 {}
    else if r == 8 {} else if r == 9 {} else if r == 10 {} else if r == 11 {}
    else if r == 12 {} else if r == 13 {} else {}
  }

  lemma Rows(r: nat)
    requires r < 16 && Square(Exp256) && Square(Log256)
    ensures LogRow(r) && StepRow(r)
  {
    hide Exp256, Log256, Digits256;
    if r == 0 {
      Left0(); Right0(); Chain0();
    } else if r == 1 {
      Left1(); Right1(); Chain1();
    } else if r == 2 {
      Left2(); Right2(); Chain2();
    } else if r == 3 {
      Left3(); Right3(); Chain3();
    } else if r == 4 {
      Left4(); Right4(); Chain4();
    } else if r == 5 {
      Left5(); Right5(); Chain5();
    } else if r == 6 {
      Left6(); Right6(); Chain6();
    } else if r == 7 {
      Left7(); Right7(); Chain7();
    } else if r == 8 {
      Left8(); Right8(); Chain8();
    } else if r == 9 {
      Left9(); Right9(); Chain9();
    } else if r == 10 {
      Left10(); Right10(); Chain10();
    } else if r == 11 {
      Left11(); Right11(); Chain11();
    } else if r == 12 {
      Left12(); Right12(); Chain12();
    } else if r == 13 {
      Left13(); Right13(); Chain13();
    } else if r == 14 {
      Left14(); Right14(); Chain14();
    } else {
      Left15(); Right15(); Chain15();
    }
  }

  lemma EntryUpToOne(k: nat)
    requires k < 255 && Square(Exp256) && Square(Log256)
    ensures var x := At(Exp256, k);
      && 0 < x < 256
      && At(Exp256, k + 1) == Digits256(x)
      && At(Log256, x) == if x == 1 then 255 else k
  {
    hide Exp256, Log256, Digits256;
    var r, c := k / 16, k % 16;
    Rows(r);
    assert Exp256[r][c] == At(Exp256, k);
    if c == 15 {
      StepAcross(r);
    }
  }

  /** The entry 1 occurs at 0 only: it is followed by 2, whose logarithm is 1. */
  lemma Entry(k: nat)
    requires k < 255 && Square(Exp256) && Square(Log256)
    ensures var x := At(Exp256, k);
      && 0 < x < 256
      && At(Exp256, k + 1) == Digits256(x)
      && At(Log256, x) == if k == 0 then 255 else k
  {
    Ends256();
    hide Exp256, Log256, At;
    EntryUpToOne(k);
    if 0 < k && At(Exp256, k) == 1 {
      assert Digits256(1) == 2;
      EntryUpToOne(0);
      EntryUpToOne(1);
      if k < 254 {
        EntryUpToOne(k + 1);
      }
      assert false;
    }
  }

  lemma Lift256(k: nat)
    requires k < 256
    ensures Square(Exp256) && Square(Log256)
    ensures Header256()
    ensures Tables256().exp[k] == At(Exp256, k) && Tables256().log[k] == At(Log256, k)
  {
    Shape();
    hide Exp256, Log256;
  }

  predicate Header256() {
    var f := Tables256();
    f.p == 255 && |f.exp| == 256 && |f.log| == 256 && f.size == 256 && f.poly == 0x11d
  }

  lemma Steps256(k: nat)
    requires k < 255 && Header256()
    ensures StepAt(Tables256(), k)
  {
    hide Exp256, Log256, At, Tables256, Xor, Digits256;
    Lift256(k); Lift256(k + 1);
    Entry(k);
    StepIsDigits(At(Exp256, k));
  }

  lemma Ends256()
    ensures Square(Exp256) && At(Exp256, 0) == 1 && At(Exp256, 255) == 1
    ensures Square(Log256) && At(Log256, 1) == 255 && At(Log256, 0) == 0
  {
  }

  lemma Exps256(k: nat)
    requires k <= 255 && Header256()
    ensures ExpAt(Tables256(), k)
  {
    hide Exp256, Log256, At, Tables256;
    Lift256(k);
    Ends256();
    var i := if k == 255 then 0 else k;
    Entry(i);
    Lift256(At(Exp256, i));
  }

  // ---- the logarithm table is onto -------------------------------------------------------------

  /** n distinct numbers in [1, n] are all of them. */
  lemma Onto(s: seq<nat>, n: nat, x: nat)
    requires |s| == n
    requires forall i, j :: 0 <= i < j < n ==> s[i] != s[j]
    requires forall i :: 0 <= i < n ==> 1 <= s[i] <= n
    requires 1 <= x <= n
    ensures x in s
  {
    var image := Members(s);
    ImageSize(s);
    RangeSize(n);
    if x !in s {
      assert image <= Range(n) - {x} by {
        forall i | 0 <= i < n ensures s[i] in Range(n) {
          InRange(n, s[i]);
        }
      }
      InRange(n, x);
      SubsetSize(image, Range(n) - {x});
    }
  }

  function Range(n: nat): set<nat> {
    if n == 0 then {} else Range(n - 1) + {n}
  }

  lemma {:induction false} InRange(n: nat, y: nat)
    ensures y in Range(n) <==> 1 <= y <= n
  {
    if n > 0 {
      InRange(n - 1, y);
    }
  }

  function Members(s: seq<nat>): (m: set<nat>)
    ensures forall y :: y in m <==> y in s
  {
    set y | y in s
  }

  lemma {:induction false} ImageSize(s: seq<nat>)
    requires forall i, j :: 0 <= i < j < |s| ==> s[i] != s[j]
    ensures |Members(s)| == |s|
  {
    if |s| > 0 {
      var t := s[..|s| - 1];
      ImageSize(t);
      assert Members(s) == Members(t) + {s[|s| - 1]};
    } else {
      assert Members(s) == {};
    }
  }

  lemma {:induction false} RangeSize(n: nat)
    ensures |Range(n)| == n
  {
    if n > 0 {
      RangeSize(n - 1);
      InRange(n - 1, n);
    }
  }

  lemma {:induction false} SubsetSize(a: set<nat>, b: set<nat>)
    requires a <= b
    ensures |a| <= |b|
  {
    if a != {} {
      var x: nat :| x in a;
      SubsetSize(a - {x}, b - {x});
    }
  }

  lemma Logs256(x: nat)
    requires 0 < x < 256 && Header256()
    ensures LogAt(Tables256(), x)
  {
    hide Exp256, Log256, At, Tables256;
    var f := Tables256();
    forall k | 0 <= k < 255
      ensures 0 < f.exp[k] < 256 && f.log[f.exp[k]] == if k == 0 then 255 else k
    {
      Lift256(k);
      Entry(k);
      Lift256(f.exp[k]);
    }
    Lift256(0);
    Ends256();
    forall i, j | 0 <= i < j < 255 ensures f.exp[i] != f.exp[j] {
      assert f.log[f.exp[i]] != f.log[f.exp[j]];
    }
    Onto(f.exp[..255], 255, x);
    var k :| 0 <= k < 255 && f.exp[k] == x;
  }

  lemma Gf256IsField()
    ensures IsField(Tables256())
  {
    hide Exp256, Log256, At, Tables256;
    Lift256(0); Lift256(255);
    Ends256();
    var f := Tables256();
    forall k: nat | k < 255 ensures StepAt(f, k) {
      Steps256(k);
    }
    forall k: nat | k <= 255 ensures ExpAt(f, k) {
      Exps256(k);
    }
    forall x: nat | 0 < x < 256 ensures LogAt(f, x) {
      Logs256(x);
    }
  }

  function Gf256(): (f: Gf)
    ensures f.p == 255 && f.size == 256
  {
    Gf256IsField();
    Tables256()
  }

  lemma Shift16(y: nat)
    requires y < 16
    ensures Xor(16 + y, 0x13) == Xor(y, 3)
  {
    hide Xor;
    XorCut(16, 16 + y, 0x13);
    XorTop(16, 16 + y, 0x13);
  }

  lemma Flip3(y: nat)
    requires y < 8
    ensures Xor(2 * y, 3) == if y % 2 == 0 then 2 * y + 3 else 2 * y - 1
  {
    hide Xor;
    XorDigit(2 * y, 3, y, 0);
    XorDigit(y, 1, y / 2, y % 2);
    XorZero(y / 2);
  }

  lemma Steps16(k: nat)
    requires k < 15
    ensures StepAt(Tables16(), k)
  {
    hide Xor;
    var x := Tables16().exp[k];
    if x >= 8 {
      Shift16(2 * (x - 8));
      Flip3(x - 8);
    }
  }

  lemma Exps16(k: nat)
    requires k <= 15
    ensures ExpAt(Tables16(), k)
  {
  }

  lemma LowLogs16(x: nat)
    requires 0 < x < 8
    ensures LogAt(Tables16(), x)
  {
  }

  lemma HighLogs16(x: nat)
    requires 8 <= x < 16
    ensures LogAt(Tables16(), x)
  {
  }

  lemma Gf16IsField()
    ensures IsField(Tables16())
  {
    hide StepAt, ExpAt, LogAt;
    var f := Tables16();
    forall k: nat | k < 15 ensures StepAt(f, k) {
      Steps16(k);
    }
    forall k: nat | k <= 15 ensures ExpAt(f, k) {
      Exps16(k);
    }
    forall x: nat | 0 < x < 16 ensures LogAt(f, x) {
      if x < 8 {
        LowLogs16(x);
      } else {
        HighLogs16(x);
      }
    }
  }

  function Gf16(): (f: Gf)
    ensures f.p == 15 && f.size == 16
  {
    Gf16IsField();
    Tables16()
  }
}
