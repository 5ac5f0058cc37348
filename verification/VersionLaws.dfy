/** The decoder's table of all forty versions, compared with the rules and tables of ISO/IEC 18004:2015. */
module VersionLaws {
  import opened Versions
  import opened Geometry

  // ---- the standard ---------------------------------------------------------------------------------------------------

  /** Parity bytes a block of the levels M, L, H and Q in versions 1 to 40 (Table 9). */
  const PARITY: seq<seq<nat>> := [
    [10, 16, 26, 18, 24, 16, 18, 22, 22, 26, 30, 22, 22, 24, 24, 28, 28, 26, 26, 26,
     26, 28, 28, 28, 28, 28, 28, 28, 28, 28, 28, 28, 28, 28, 28, 28, 28, 28, 28, 28],
    [7, 10, 15, 20, 26, 18, 20, 24, 30, 18, 20, 24, 26, 30, 22, 24, 28, 30, 28, 28,
     28, 28, 30, 30, 26, 28, 30, 30, 30, 30, 30, 30, 30, 30, 30, 30, 30, 30, 30, 30],
    [17, 28, 22, 16, 22, 28, 26, 26, 24, 28, 24, 28, 22, 24, 24, 30, 28, 28, 26, 28,
     30, 24, 30, 30, 30, 30, 30, 30, 30, 30, 30, 30, 30, 30, 30, 30, 30, 30, 30, 30],
    [13, 22, 18, 26, 18, 24, 18, 22, 20, 24, 28, 26, 24, 20, 30, 24, 28, 28, 26, 30,
     28, 30, 30, 30, 30, 28, 30, 30, 30, 30, 30, 30, 30, 30, 30, 30, 30, 30, 30, 30]
  ]

  /** And the number of blocks. */
  const BLOCKS: seq<seq<nat>> := [
    [1, 1, 1, 2, 2, 4, 4, 4, 5, 5, 5, 8, 9, 9, 10, 10, 11, 13, 14, 16,
     17, 17, 18, 20, 21, 23, 25, 26, 28, 29, 31, 33, 35, 37, 38, 40, 43, 45, 47, 49],
    [1, 1, 1, 1, 1, 2, 2, 2, 2, 4, 4, 4, 4, 4, 6, 6, 6, 6, 7, 8,
     8, 9, 9, 10, 12, 12, 12, 13, 14, 15, 16, 17, 18, 19, 19, 20, 21, 22, 24, 25],
    [1, 1, 2, 4, 4, 4, 5, 6, 8, 8, 11, 11, 16, 16, 18, 16, 19, 21, 25, 25,
     25, 34, 30, 32, 35, 37, 40, 42, 45, 48, 51, 54, 57, 60, 63, 66, 70, 74, 77, 81],
    [1, 1, 2, 2, 4, 4, 6, 6, 8, 8, 8, 10, 12, 16, 12, 17, 16, 18, 21, 20,
     23, 23, 25, 27, 29, 34, 34, 35, 38, 40, 43, 45, 48, 51, 53, 56, 59, 62, 65, 68]
  ]

  /** Modules that are neither function patterns nor format nor version words. */
  function RawModules(v: nat): int {
    var n := v / 7 + 2;
    (16 * v + 128) * v + 64 - (if v >= 2 then (25 * n - 10) * n - 55 else 0) - (if v >= 7 then 36 else 0)
  }

  /** Centre line k of n: from 6 to 4v + 10, the lines after the first evenly spaced (Annex E). */
  function CentreLine(v: nat, k: nat): int {
    var n := v / 7 + 2;
    var step := if v == 32 then 26 else (4 * v + 2 * n + 1) / (2 * n - 2) * 2;
    if k == 0 then 6 else 4 * v + 10 - step * (n - 1 - k)
  }

  ghost predicate Total(v: nat, i: VersionInfo) {
    8 * i.dataBytes <= RawModules(v) < 8 * i.dataBytes + 8
  }

  ghost predicate Lines(v: nat, i: VersionInfo) {
    if v == 1 then i.apat == []
    else |i.apat| == v / 7 + 2 && forall k :: 0 <= k < |i.apat| ==> i.apat[k] == CentreLine(v, k)
  }

  /** Total and the parameters of all four levels. */
  ghost predicate Standard(v: nat, i: VersionInfo)
    requires 1 <= v <= 40 && InfoOk(i)
  {
    Total(v, i) && Level(v, i, 0) && Level(v, i, 1) && Level(v, i, 2) && Level(v, i, 3)
  }

  ghost predicate Level(v: nat, i: VersionInfo, l: nat)
    requires 1 <= v <= 40 && InfoOk(i) && l < 4
  {
    i.ecc[l].bs - i.ecc[l].dw == PARITY[l][v - 1] && i.ecc[l].ns + LongBlocks(i.dataBytes, i.ecc[l]) == BLOCKS[l][v - 1]
  }

  // ---- one version after the other ----------------------------------------------------------------------------------------

  lemma Version1()
    ensures Standard(1, VersionDb4(1)) && Lines(1, VersionDb4(1))
  {
  }

  lemma Version2()
    ensures Standard(2, VersionDb4(2)) && Lines(2, VersionDb4(2))
  {
  }

  lemma Version3()
    ensures Standard(3, VersionDb4(3)) && Lines(3, VersionDb4(3))
  {
  }

  lemma Version4()
    ensures Standard(4, VersionDb4(4)) && Lines(4, VersionDb4(4))
  {
  }

  lemma Version5()
    ensures Standard(5, VersionDb7(5)) && Lines(5, VersionDb7(5))
  {
  }

  lemma Version6()
    ensures Standard(6, VersionDb7(6)) && Lines(6, VersionDb7(6))
  {
  }

  lemma Version7()
    ensures Standard(7, VersionDb7(7)) && Lines(7, VersionDb7(7))
  {
  }

  lemma Version8()
    ensures Standard(8, VersionDb10(8)) && Lines(8, VersionDb10(8))
  {
  }

  lemma Version9()
    ensures Standard(9, VersionDb10(9)) && Lines(9, VersionDb10(9))
  {
  }

  lemma Version10()
    ensures Standard(10, VersionDb10(10)) && Lines(10, VersionDb10(10))
  {
  }

  lemma Version11()
    ensures Standard(11, VersionDb12(11)) && Lines(11, VersionDb12(11))
  {
  }

  lemma Version12()
    ensures Standard(12, VersionDb12(12)) && Lines(12, VersionDb12(12))
  {
  }

  lemma Version13()
    ensures Standard(13, VersionDb15(13)) && Lines(13, VersionDb15(13))
  {
  }

  lemma Version14()
    ensures Standard(14, VersionDb15(14)) && Lines(14, VersionDb15(14))
  {
  }

  lemma Version15()
    ensures Standard(15, VersionDb15(15)) && Lines(15, VersionDb15(15))
  {
  }

  lemma Version16()
    ensures Standard(16, VersionDb17(16)) && Lines(16, VersionDb17(16))
  {
  }

  lemma Version17()
    ensures Standard(17, VersionDb17(17)) && Lines(17, VersionDb17(17))
  {
  }

  lemma Version18()
    ensures Standard(18, VersionDb20(18)) && Lines(18, VersionDb20(18))
  {
  }

  lemma Version19()
    ensures Standard(19, VersionDb20(19)) && Lines(19, VersionDb20(19))
  {
  }

  lemma Version20()
    ensures Standard(20, VersionDb20(20)) && Lines(20, VersionDb20(20))
  {
  }

  lemma Version21()
    ensures Standard(21, VersionDb22(21)) && !Lines(21, VersionDb22(21))
  {
    assert VersionDb22(21).apat[4] == 92 && CentreLine(21, 4) == 94;
  }

  lemma Version22()
    ensures Standard(22, VersionDb22(22)) && Lines(22, VersionDb22(22))
  {
  }

  lemma Version23()
    ensures Standard(23, VersionDb25(23)) && Lines(23, VersionDb25(23))
  {
  }

  lemma Version24()
    ensures Standard(24, VersionDb25(24)) && Lines(24, VersionDb25(24))
  {
  }

  lemma Version25()
    ensures Standard(25, VersionDb25(25)) && Lines(25, VersionDb25(25))
  {
  }

  lemma Version26()
    ensures Standard(26, VersionDb27(26)) && Lines(26, VersionDb27(26))
  {
  }

  lemma Version27()
    ensures Standard(27, VersionDb27(27)) && Lines(27, VersionDb27(27))
  {
  }

  lemma Version28()
    ensures Standard(28, VersionDb30(28)) && Lines(28, VersionDb30(28))
  {
  }

  lemma Version29()
    ensures Standard(29, VersionDb30(29)) && Lines(29, VersionDb30(29))
  {
  }

  lemma Version30()
    ensures Standard(30, VersionDb30(30)) && Lines(30, VersionDb30(30))
  {
  }

  lemma Version31()
    ensures Standard(31, VersionDb32(31)) && Lines(31, VersionDb32(31))
  {
  }

  lemma Version32()
    ensures Standard(32, VersionDb32(32)) && Lines(32, VersionDb32(32))
  {
  }

  lemma Version33()
    ensures Standard(33, VersionDb35(33)) && Lines(33, VersionDb35(33))
  {
  }

  lemma Version34()
    ensures Standard(34, VersionDb35(34)) && Lines(34, VersionDb35(34))
  {
  }

  lemma Version35()
    ensures Standard(35, VersionDb35(35)) && Lines(35, VersionDb35(35))
  {
  }

  lemma Version36()
    ensures Standard(36, VersionDb37(36)) && Lines(36, VersionDb37(36))
  {
  }

  lemma Version37()
    ensures Standard(37, VersionDb37(37)) && Lines(37, VersionDb37(37))
  {
  }

  lemma Version38()
    ensures Standard(38, VersionDb40(38)) && Lines(38, VersionDb40(38))
  {
  }

  lemma Version39()
    ensures Standard(39, VersionDb40(39)) && Lines(39, VersionDb40(39))
  {
  }

  lemma Version40()
    ensures Standard(40, VersionDb40(40)) && Lines(40, VersionDb40(40))
  {
  }

  // ---- all of them ----------------------------------------------------------------------------------------------------------

  lemma UpTo4(v: nat)
    requires 1 <= v <= 4
    ensures Standard(v, VersionDb4(v)) && (Lines(v, VersionDb4(v)) <==> v != 21)
  {
    hide Standard, Lines, VersionDb4;
    match v
    case 1 => Version1();
    case 2 => Version2();
    case 3 => Version3();
    case _ => Version4();
  }

  lemma UpTo7(v: nat)
    requires 5 <= v <= 7
    ensures Standard(v, VersionDb7(v)) && (Lines(v, VersionDb7(v)) <==> v != 21)
  {
    hide Standard, Lines, VersionDb7;
    match v
    case 5 => Version5();
    case 6 => Version6();
    case _ => Version7();
  }

  lemma UpTo10(v: nat)
    requires 8 <= v <= 10
    ensures Standard(v, VersionDb10(v)) && (Lines(v, VersionDb10(v)) <==> v != 21)
  {
    hide Standard, Lines, VersionDb10;
    match v
    case 8 => Version8();
    case 9 => Version9();
    case _ => Version10();
  }

  lemma UpTo12(v: nat)
    requires 11 <= v <= 12
    ensures Standard(v, VersionDb12(v)) && (Lines(v, VersionDb12(v)) <==> v != 21)
  {
    hide Standard, Lines, VersionDb12;
    match v
    case 11 => Version11();
    case _ => Version12();
  }

  lemma UpTo15(v: nat)
    requires 13 <= v <= 15
    ensures Standard(v, VersionDb15(v)) && (Lines(v, VersionDb15(v)) <==> v != 21)
  {
    hide Standard, Lines, VersionDb15;
    match v
    case 13 => Version13();
    case 14 => Version14();
    case _ => Version15();
  }

  lemma UpTo17(v: nat)
    requires 16 <= v <= 17
    ensures Standard(v, VersionDb17(v)) && (Lines(v, VersionDb17(v)) <==> v != 21)
  {
    hide Standard, Lines, VersionDb17;
    match v
    case 16 => Version16();
    case _ => Version17();
  }

  lemma UpTo20(v: nat)
    requires 18 <= v <= 20
    ensures Standard(v, VersionDb20(v)) && (Lines(v, VersionDb20(v)) <==> v != 21)
  {
    hide Standard, Lines, VersionDb20;
    match v
    case 18 => Version18();
    case 19 => Version19();
    case _ => Version20();
  }

  lemma UpTo22(v: nat)
    requires 21 <= v <= 22
    ensures Standard(v, VersionDb22(v)) && (Lines(v, VersionDb22(v)) <==> v != 21)
  {
    hide Standard, Lines, VersionDb22;
    match v
    case 21 => Version21();
    case _ => Version22();
  }

  lemma UpTo25(v: nat)
    requires 23 <= v <= 25
    ensures Standard(v, VersionDb25(v)) && (Lines(v, VersionDb25(v)) <==> v != 21)
  {
    hide Standard, Lines, VersionDb25;
    match v
    case 23 => Version23();
    case 24 => Version24();
    case _ => Version25();
  }

  lemma UpTo27(v: nat)
    requires 26 <= v <= 27
    ensures Standard(v, VersionDb27(v)) && (Lines(v, VersionDb27(v)) <==> v != 21)
  {
    hide Standard, Lines, VersionDb27;
    match v
    case 26 => Version26();
    case _ => Version27();
  }

  lemma UpTo30(v: nat)
    requires 28 <= v <= 30
    ensures Standard(v, VersionDb30(v)) && (Lines(v, VersionDb30(v)) <==> v != 21)
  {
    hide Standard, Lines, VersionDb30;
    match v
    case 28 => Version28();
    case 29 => Version29();
    case _ => Version30();
  }

  lemma UpTo32(v: nat)
    requires 31 <= v <= 32
    ensures Standard(v, VersionDb32(v)) && (Lines(v, VersionDb32(v)) <==> v != 21)
  {
    hide Standard, Lines, VersionDb32;
    match v
    case 31 => Version31();
    case _ => Version32();
  }

  lemma UpTo35(v: nat)
    requires 33 <= v <= 35
    ensures Standard(v, VersionDb35(v)) && (Lines(v, VersionDb35(v)) <==> v != 21)
  {
    hide Standard, Lines, VersionDb35;
    match v
    case 33 => Version33();
    case 34 => Version34();
    case _ => Version35();
  }

  lemma UpTo37(v: nat)
    requires 36 <= v <= 37
    ensures Standard(v, VersionDb37(v)) && (Lines(v, VersionDb37(v)) <==> v != 21)
  {
    hide Standard, Lines, VersionDb37;
    match v
    case 36 => Version36();
    case _ => Version37();
  }

  lemma UpTo40(v: nat)
    requires 38 <= v <= 40
    ensures Standard(v, VersionDb40(v)) && (Lines(v, VersionDb40(v)) <==> v != 21)
  {
    hide Standard, Lines, VersionDb40;
    match v
    case 38 => Version38();
    case 39 => Version39();
    case _ => Version40();
  }

  /** Sizes, blocks and parity are the standard's in every version and level; the centre lines are if and only if the version
      is not 21. */
  lemma VersionTable(v: nat)
    requires 1 <= v <= 40
    ensures Standard(v, VersionDb(v)) && (Lines(v, VersionDb(v)) <==> v != 21)
  {
    hide Standard, Lines, InfoOk, VersionDb4, VersionDb7, VersionDb10, VersionDb12, VersionDb15, VersionDb17, VersionDb20, VersionDb22;
    hide VersionDb25, VersionDb27, VersionDb30, VersionDb32, VersionDb35, VersionDb37, VersionDb40;
    if v <= 4 {
      UpTo4(v);
    } else if v <= 7 {
      UpTo7(v);
    } else if v <= 10 {
      UpTo10(v);
    } else if v <= 12 {
      UpTo12(v);
    } else if v <= 15 {
      UpTo15(v);
    } else if v <= 17 {
      UpTo17(v);
    } else if v <= 20 {
      UpTo20(v);
    } else if v <= 22 {
      UpTo22(v);
    } else if v <= 25 {
      UpTo25(v);
    } else if v <= 27 {
      UpTo27(v);
    } else if v <= 30 {
      UpTo30(v);
    } else if v <= 32 {
      UpTo32(v);
    } else if v <= 35 {
      UpTo35(v);
    } else if v <= 37 {
      UpTo37(v);
    } else {
      UpTo40(v);
    }
  }

  /** In version 21 the last line is 92 where the standard has 94.  So the decoder takes a corner of the lower right alignment
      pattern, which covers rows and columns 92 to 96, for data, and passes over a data module above and left of it. */
  lemma MisplacedLine()
    ensures CentreLine(21, 4) == 94 && VersionDb(21).apat == [6, 28, 50, 72, 92]
    ensures !Reserved(21, 96, 96) && Reserved(21, 90, 90)
  {
    hide InfoOk;
    var apat := VersionDb(21).apat;
    assert Covers(apat, 4, 4, 90, 90);
    assert forall a: nat :: a < |apat| ==> !Near(apat[a], 96);
  }
}
