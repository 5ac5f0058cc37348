/** The format and version words, worked out step by step and compared with the tables of ISO/IEC 18004. */
module CodeWords {
  import opened Bits
  import opened Format
  import opened Grid

  // ---- exclusive or of known words ------------------------------------------------------------------------------------------

  /** The four low bits of c are those of the exclusive or. */
  predicate Nibble(a: nat, b: nat, c: nat) {
    && (c % 2 == 1 <==> a % 2 != b % 2)
    && (c / 2 % 2 == 1 <==> a / 2 % 2 != b / 2 % 2)
    && (c / 2 / 2 % 2 == 1 <==> a / 2 / 2 % 2 != b / 2 / 2 % 2)
    && (c / 2 / 2 / 2 % 2 == 1 <==> a / 2 / 2 / 2 % 2 != b / 2 / 2 / 2 % 2)
  }

  lemma XorHalf(a: nat, b: nat, c: nat)
    requires Xor(a / 2, b / 2) == c / 2 && (c % 2 == 1 <==> a % 2 != b % 2)
    ensures Xor(a, b) == c
  {
    XorStep(a, b);
  }

  lemma XorNibble(a: nat, b: nat, c: nat)
    requires Xor(a / 16, b / 16) == c / 16 && Nibble(a, b, c)
    ensures Xor(a, b) == c
  {
    hide Xor;
    Halves(a); Halves(b); Halves(c);
    XorHalf(a / 2 / 2 / 2, b / 2 / 2 / 2, c / 2 / 2 / 2);
    XorHalf(a / 2 / 2, b / 2 / 2, c / 2 / 2);
    XorHalf(a / 2, b / 2, c / 2);
    XorHalf(a, b, c);
  }

  lemma Halves(a: nat)
    ensures a / 2 / 2 / 2 / 2 == a / 16
  {
  }

  lemma Sixteenths(a: nat)
    requires a < 65536
    ensures a / 16 / 16 == a / 256 && a / 16 / 16 / 16 == a / 4096 && a / 16 / 16 / 16 / 16 == 0
  {
  }

  /** An exclusive or of sixteen-bit words, four bits at a time. */
  lemma XorWord(a: nat, b: nat, c: nat)
    requires a < 65536 && b < 65536 && c < 65536
    requires Nibble(a, b, c) && Nibble(a / 16, b / 16, c / 16) && Nibble(a / 256, b / 256, c / 256) && Nibble(a / 4096, b / 4096, c / 4096)
    ensures Xor(a, b) == c
  {
    XorZero(0);
    hide Xor, Nibble;
    Sixteenths(a); Sixteenths(b); Sixteenths(c);
    XorNibble(a / 16 / 16 / 16, b / 16 / 16 / 16, c / 16 / 16 / 16);
    XorNibble(a / 16 / 16, b / 16 / 16, c / 16 / 16);
    XorNibble(a / 16, b / 16, c / 16);
    XorNibble(a, b, c);
  }

  // ---- format words -----------------------------------------------------------------------------------------------------------

  /** The first six steps of the division only shift. */
  lemma SixSteps(data: nat)
    requires 8 <= data < 16
    ensures RemSteps(data, 6) == 64 * data
  {
    hide Xor;
    XorZero(2 * data); XorZero(4 * data); XorZero(8 * data); XorZero(16 * data); XorZero(32 * data); XorZero(64 * data);
    assert RemSteps(data, 1) == 2 * data && RemSteps(data, 2) == 4 * data && RemSteps(data, 3) == 8 * data;
    assert RemSteps(data, 4) == 16 * data && RemSteps(data, 5) == 32 * data;
  }

  lemma MoreSteps(data: nat, n: nat, x: nat, a: nat, b: nat)
    requires RemSteps(data, n) == x < 1024 && a == Xor(2 * x, if x < 512 then 0 else 0x537)
    requires a < 1024 && b == Xor(2 * a, if a < 512 then 0 else 0x537)
    ensures RemSteps(data, n + 2) == b
  {
    hide Xor;
    assert RemSteps(data, n + 1) == a;
  }

  lemma HalfRemainder0()
    ensures RemSteps(8, 8) == 622
  {
    hide RemSteps, Xor;
    SixSteps(8);
    XorWord(1024, 0x537, 311);
    XorZero(622);
    MoreSteps(8, 6, 512, 311, 622);
  }

  lemma Remainder0()
    ensures RemSteps(8, 10) == 982
  {
    hide RemSteps, Xor;
    HalfRemainder0();
    XorWord(1244, 0x537, 491);
    XorZero(982);
    MoreSteps(8, 8, 622, 491, 982);
  }

  lemma HalfRemainder1()
    ensures RemSteps(9, 8) == 878
  {
    hide RemSteps, Xor;
    SixSteps(9);
    XorWord(1152, 0x537, 439);
    XorZero(878);
    MoreSteps(9, 6, 576, 439, 878);
  }

  lemma Remainder1()
    ensures RemSteps(9, 10) == 737
  {
    hide RemSteps, Xor;
    HalfRemainder1();
    XorWord(1756, 0x537, 1003);
    XorWord(2006, 0x537, 737);
    MoreSteps(9, 8, 878, 1003, 737);
  }

  lemma HalfRemainder2()
    ensures RemSteps(10, 8) == 110
  {
    hide RemSteps, Xor;
    SixSteps(10);
    XorWord(1280, 0x537, 55);
    XorZero(110);
    MoreSteps(10, 6, 640, 55, 110);
  }

  lemma Remainder2()
    ensures RemSteps(10, 10) == 440
  {
    hide RemSteps, Xor;
    HalfRemainder2();
    XorZero(220);
    XorZero(440);
    MoreSteps(10, 8, 110, 220, 440);
  }

  lemma HalfRemainder3()
    ensures RemSteps(11, 8) == 366
  {
    hide RemSteps, Xor;
    SixSteps(11);
    XorWord(1408, 0x537, 183);
    XorZero(366);
    MoreSteps(11, 6, 704, 183, 366);
  }

  lemma Remainder3()
    ensures RemSteps(11, 10) == 143
  {
    hide RemSteps, Xor;
    HalfRemainder3();
    XorZero(732);
    XorWord(1464, 0x537, 143);
    MoreSteps(11, 8, 366, 732, 143);
  }

  lemma HalfRemainder4()
    ensures RemSteps(12, 8) == 857
  {
    hide RemSteps, Xor;
    SixSteps(12);
    XorWord(1536, 0x537, 823);
    XorWord(1646, 0x537, 857);
    MoreSteps(12, 6, 768, 823, 857);
  }

  lemma Remainder4()
    ensures RemSteps(12, 10) == 573
  {
    hide RemSteps, Xor;
    HalfRemainder4();
    XorWord(1714, 0x537, 901);
    XorWord(1802, 0x537, 573);
    MoreSteps(12, 8, 857, 901, 573);
  }

  lemma HalfRemainder5()
    ensures RemSteps(13, 8) == 601
  {
    hide RemSteps, Xor;
    SixSteps(13);
    XorWord(1664, 0x537, 951);
    XorWord(1902, 0x537, 601);
    MoreSteps(13, 6, 832, 951, 601);
  }

  lemma Remainder5()
    ensures RemSteps(13, 10) == 778
  {
    hide RemSteps, Xor;
    HalfRemainder5();
    XorWord(1202, 0x537, 389);
    XorZero(778);
    MoreSteps(13, 8, 601, 389, 778);
  }

  lemma HalfRemainder6()
    ensures RemSteps(14, 8) == 345
  {
    hide RemSteps, Xor;
    SixSteps(14);
    XorWord(1792, 0x537, 567);
    XorWord(1134, 0x537, 345);
    MoreSteps(14, 6, 896, 567, 345);
  }

  lemma Remainder6()
    ensures RemSteps(14, 10) == 83
  {
    hide RemSteps, Xor;
    HalfRemainder6();
    XorZero(690);
    XorWord(1380, 0x537, 83);
    MoreSteps(14, 8, 345, 690, 83);
  }

  lemma HalfRemainder7()
    ensures RemSteps(15, 8) == 89
  {
    hide RemSteps, Xor;
    SixSteps(15);
    XorWord(1920, 0x537, 695);
    XorWord(1390, 0x537, 89);
    MoreSteps(15, 6, 960, 695, 89);
  }

  lemma Remainder7()
    ensures RemSteps(15, 10) == 356
  {
    hide RemSteps, Xor;
    HalfRemainder7();
    XorZero(178);
    XorZero(356);
    MoreSteps(15, 8, 89, 178, 356);
  }

  lemma FixedPattern0()
    ensures Xor(9174, 0x5412) == 0x77c4
  {
    hide Xor;
    XorWord(9174, 0x5412, 0x77c4);
  }

  lemma FixedPattern1()
    ensures Xor(9953, 0x5412) == 0x72f3
  {
    hide Xor;
    XorWord(9953, 0x5412, 0x72f3);
  }

  lemma FixedPattern2()
    ensures Xor(10680, 0x5412) == 0x7daa
  {
    hide Xor;
    XorWord(10680, 0x5412, 0x7daa);
  }

  lemma FixedPattern3()
    ensures Xor(11407, 0x5412) == 0x789d
  {
    hide Xor;
    XorWord(11407, 0x5412, 0x789d);
  }

  lemma FixedPattern4()
    ensures Xor(12861, 0x5412) == 0x662f
  {
    hide Xor;
    XorWord(12861, 0x5412, 0x662f);
  }

  lemma FixedPattern5()
    ensures Xor(14090, 0x5412) == 0x6318
  {
    hide Xor;
    XorWord(14090, 0x5412, 0x6318);
  }

  lemma FixedPattern6()
    ensures Xor(14419, 0x5412) == 0x6c41
  {
    hide Xor;
    XorWord(14419, 0x5412, 0x6c41);
  }

  lemma FixedPattern7()
    ensures Xor(15716, 0x5412) == 0x6976
  {
    hide Xor;
    XorWord(15716, 0x5412, 0x6976);
  }

  /** The format words of level L, as Table C.1 of ISO/IEC 18004:2015 lists them. */
  lemma FormatWords(mask: nat)
    requires mask < 8
    ensures FormatBits(mask) == [0x77c4, 0x72f3, 0x7daa, 0x789d, 0x662f, 0x6318, 0x6c41, 0x6976][mask]
  {
    hide RemSteps, Xor, Nibble;
    match mask
    case 0 => Remainder0(); FixedPattern0();
    case 1 => Remainder1(); FixedPattern1();
    case 2 => Remainder2(); FixedPattern2();
    case 3 => Remainder3(); FixedPattern3();
    case 4 => Remainder4(); FixedPattern4();
    case 5 => Remainder5(); FixedPattern5();
    case 6 => Remainder6(); FixedPattern6();
    case _ => Remainder7(); FixedPattern7();
  }

  // ---- version words ------------------------------------------------------------------------------------------------------------

  /** The first eight steps only shift. */
  lemma EightSteps(v: nat)
    requires v < 16
    ensures VersionSteps(v, 8) == 256 * v
  {
    hide Xor;
    XorZero(2 * v); XorZero(4 * v); XorZero(8 * v); XorZero(16 * v);
    assert VersionSteps(v, 1) == 2 * v && VersionSteps(v, 2) == 4 * v && VersionSteps(v, 3) == 8 * v;
    assert VersionSteps(v, 4) == 16 * v;
    XorZero(32 * v); XorZero(64 * v); XorZero(128 * v); XorZero(256 * v);
    assert VersionSteps(v, 5) == 32 * v && VersionSteps(v, 6) == 64 * v && VersionSteps(v, 7) == 128 * v;
  }

  lemma TwoSteps(v: nat, n: nat, x: nat, a: nat, b: nat)
    requires VersionSteps(v, n) == x < 4096 && a == Xor(2 * x, if x < 2048 then 0 else 0x1f25)
    requires a < 4096 && b == Xor(2 * a, if a < 2048 then 0 else 0x1f25)
    ensures VersionSteps(v, n + 2) == b
  {
    hide Xor;
    assert VersionSteps(v, n + 1) == a;
  }

  lemma Half7()
    ensures VersionSteps(7, 10) == 805
  {
    hide VersionSteps, Xor;
    EightSteps(7);
    XorZero(3584);
    XorWord(7168, 0x1f25, 805);
    TwoSteps(7, 8, 1792, 3584, 805);
  }

  lemma Version7()
    ensures VersionSteps(7, 12) == 3220
  {
    hide VersionSteps, Xor;
    Half7();
    XorZero(1610);
    XorZero(3220);
    TwoSteps(7, 10, 805, 1610, 3220);
  }

  lemma Half8()
    ensures VersionSteps(8, 10) == 367
  {
    hide VersionSteps, Xor;
    EightSteps(8);
    XorWord(4096, 0x1f25, 3877);
    XorWord(7754, 0x1f25, 367);
    TwoSteps(8, 8, 2048, 3877, 367);
  }

  lemma Version8()
    ensures VersionSteps(8, 12) == 1468
  {
    hide VersionSteps, Xor;
    Half8();
    XorZero(734);
    XorZero(1468);
    TwoSteps(8, 10, 367, 734, 1468);
  }

  lemma Half9()
    ensures VersionSteps(9, 10) == 1391
  {
    hide VersionSteps, Xor;
    EightSteps(9);
    XorWord(4608, 0x1f25, 3365);
    XorWord(6730, 0x1f25, 1391);
    TwoSteps(9, 8, 2304, 3365, 1391);
  }

  lemma Version9()
    ensures VersionSteps(9, 12) == 2713
  {
    hide VersionSteps, Xor;
    Half9();
    XorZero(2782);
    XorWord(5564, 0x1f25, 2713);
    TwoSteps(9, 10, 1391, 2782, 2713);
  }

  lemma Half10()
    ensures VersionSteps(10, 10) == 2415
  {
    hide VersionSteps, Xor;
    EightSteps(10);
    XorWord(5120, 0x1f25, 2853);
    XorWord(5706, 0x1f25, 2415);
    TwoSteps(10, 8, 2560, 2853, 2415);
  }

  lemma Version10()
    ensures VersionSteps(10, 12) == 1235
  {
    hide VersionSteps, Xor;
    Half10();
    XorWord(4830, 0x1f25, 3579);
    XorWord(7158, 0x1f25, 1235);
    TwoSteps(10, 10, 2415, 3579, 1235);
  }

  /** The version words, as Table D.1 of ISO/IEC 18004:2015 lists them. */
  lemma VersionWords(v: nat)
    requires 7 <= v <= 10
    ensures VersionWord(v) == [0x07c94, 0x085bc, 0x09a99, 0x0a4d3][v - 7]
  {
    hide VersionSteps;
    match v
    case 7 => Version7();
    case 8 => Version8();
    case 9 => Version9();
    case _ => Version10();
  }
}
