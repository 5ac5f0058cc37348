/** Version tables of the two programs, as literal data, and that they agree where both are defined. */
module Versions {

  /** Small block size, its data words, and the number of small blocks. */
  datatype RsParams = RsParams(bs: nat, dw: nat, ns: nat)

  /** Total codewords, alignment pattern coordinates, and the four levels M, L, H, Q. */
  datatype VersionInfo = VersionInfo(dataBytes: nat, apat: seq<nat>, ecc: seq<RsParams>)

  /** What the decoder relies on: short blocks, then blocks one byte longer, fill the symbol exactly. */
  predicate ParamsOk(dataBytes: nat, p: RsParams) {
    && 1 <= p.dw < p.bs < 255 && p.ns >= 1 && p.bs - p.dw < 64
    && p.bs * p.ns <= dataBytes
    && (dataBytes - p.bs * p.ns) % (p.bs + 1) == 0
  }

  predicate InfoOk(i: VersionInfo) {
    && |i.ecc| == 4 && |i.apat| <= 7 && i.dataBytes <= 3706

    && ParamsOk(i.dataBytes, i.ecc[0]) && ParamsOk(i.dataBytes, i.ecc[1])
    && ParamsOk(i.dataBytes, i.ecc[2]) && ParamsOk(i.dataBytes, i.ecc[3])
  }

  /** The number of blocks one byte longer than the short ones. */
  function LongBlocks(dataBytes: nat, p: RsParams): nat
    requires ParamsOk(dataBytes, p)
  {
    (dataBytes - p.bs * p.ns) / (p.bs + 1)
  }

  function VersionDb4(v: nat): (i: VersionInfo)
    requires 1 <= v <= 4
    ensures InfoOk(i)
  {
    if v == 1 then
      VersionInfo(26, [], [RsParams(26, 16, 1), RsParams(26, 19, 1), RsParams(26, 9, 1), RsParams(26, 13, 1)])
    else if v == 2 then
      VersionInfo(44, [6, 18], [RsParams(44, 28, 1), RsParams(44, 34, 1), RsParams(44, 16, 1), RsParams(44, 22, 1)])
    else if v == 3 then
      VersionInfo(70, [6, 22], [RsParams(70, 44, 1), RsParams(70, 55, 1), RsParams(35, 13, 2), RsParams(35, 17, 2)])
    else
      VersionInfo(100, [6, 26], [RsParams(50, 32, 2), RsParams(100, 80, 1), RsParams(25, 9, 4), RsParams(50, 24, 2)])
  }

  function VersionDb7(v: nat): (i: VersionInfo)
    requires 5 <= v <= 7
    ensures InfoOk(i)
  {
    if v == 5 then
      VersionInfo(134, [6, 30], [RsParams(67, 43, 2), RsParams(134, 108, 1), RsParams(33, 11, 2), RsParams(33, 15, 2)])
    else if v == 6 then
      VersionInfo(172, [6, 34], [RsParams(43, 27, 4), RsParams(86, 68, 2), RsParams(43, 15, 4), RsParams(43, 19, 4)])
    else
      VersionInfo(196, [6, 22, 38], [RsParams(49, 31, 4), RsParams(98, 78, 2), RsParams(39, 13, 4), RsParams(32, 14, 2)])
  }

  function VersionDb10(v: nat): (i: VersionInfo)
    requires 8 <= v <= 10
    ensures InfoOk(i)
  {
    if v == 8 then
      VersionInfo(242, [6, 24, 42], [RsParams(60, 38, 2), RsParams(121, 97, 2), RsParams(40, 14, 4), RsParams(40, 18, 4)])
    else if v == 9 then
      VersionInfo(292, [6, 26, 46], [RsParams(58, 36, 3), RsParams(146, 116, 2), RsParams(36, 12, 4), RsParams(36, 16, 4)])
    else
      VersionInfo(346, [6, 28, 50], [RsParams(69, 43, 4), RsParams(86, 68, 2), RsParams(43, 15, 6), RsParams(43, 19, 6)])
  }

  function VersionDb12(v: nat): (i: VersionInfo)
    requires 11 <= v <= 12
    ensures InfoOk(i)
  {
    if v == 11 then
      VersionInfo(404, [6, 30, 54], [RsParams(80, 50, 1), RsParams(101, 81, 4), RsParams(36, 12, 3), RsParams(50, 22, 4)])
    else
      VersionInfo(466, [6, 32, 58], [RsParams(58, 36, 6), RsParams(116, 92, 2), RsParams(42, 14, 7), RsParams(46, 20, 4)])
  }

  function VersionDb15(v: nat): (i: VersionInfo)
    requires 13 <= v <= 15
    ensures InfoOk(i)
  {
    if v == 13 then
      VersionInfo(532, [6, 34, 62], [RsParams(59, 37, 8), RsParams(133, 107, 4), RsParams(33, 11, 12), RsParams(44, 20, 8)])
    else if v == 14 then
      VersionInfo(581, [6, 26, 46, 66], [RsParams(64, 40, 4), RsParams(145, 115, 3), RsParams(36, 12, 11), RsParams(36, 16, 11)])
    else
      VersionInfo(655, [6, 26, 48, 70], [RsParams(65, 41, 5), RsParams(109, 87, 5), RsParams(36, 12, 11), RsParams(54, 24, 5)])
  }

  function VersionDb17(v: nat): (i: VersionInfo)
    requires 16 <= v <= 17
    ensures InfoOk(i)
  {
    if v == 16 then
      VersionInfo(733, [6, 26, 50, 74], [RsParams(73, 45, 7), RsParams(122, 98, 5), RsParams(45, 15, 3), RsParams(43, 19, 15)])
    else
      VersionInfo(815, [6, 30, 54, 78], [RsParams(74, 46, 10), RsParams(135, 107, 1), RsParams(42, 14, 2), RsParams(50, 22, 1)])
  }

  function VersionDb20(v: nat): (i: VersionInfo)
    requires 18 <= v <= 20
    ensures InfoOk(i)
  {
    if v == 18 then
      VersionInfo(901, [6, 30, 56, 82], [RsParams(69, 43, 9), RsParams(150, 120, 5), RsParams(42, 14, 2), RsParams(50, 22, 17)])
    else if v == 19 then
      VersionInfo(991, [6, 30, 58, 86], [RsParams(70, 44, 3), RsParams(141, 113, 3), RsParams(39, 13, 9), RsParams(47, 21, 17)])
    else
      VersionInfo(1085, [6, 34, 62, 90], [RsParams(67, 41, 3), RsParams(135, 107, 3), RsParams(43, 15, 15), RsParams(54, 24, 15)])
  }

  function VersionDb22(v: nat): (i: VersionInfo)
    requires 21 <= v <= 22
    ensures InfoOk(i)
  {
    if v == 21 then
      VersionInfo(1156, [6, 28, 50, 72, 92], [RsParams(68, 42, 17), RsParams(144, 116, 4), RsParams(46, 16, 19), RsParams(50, 22, 17)])
    else
      VersionInfo(1258, [6, 26, 50, 74, 98], [RsParams(74, 46, 17), RsParams(139, 111, 2), RsParams(37, 13, 34), RsParams(54, 24, 7)])
  }

  function VersionDb25(v: nat): (i: VersionInfo)
    requires 23 <= v <= 25
    ensures InfoOk(i)
  {
    if v == 23 then
      VersionInfo(1364, [6, 30, 54, 78, 102], [RsParams(75, 47, 4), RsParams(151, 121, 4), RsParams(45, 15, 16), RsParams(54, 24, 11)])
    else if v == 24 then
      VersionInfo(1474, [6, 28, 54, 80, 106], [RsParams(73, 45, 6), RsParams(147, 117, 6), RsParams(46, 16, 30), RsParams(54, 24, 11)])
    else
      VersionInfo(1588, [6, 32, 58, 84, 110], [RsParams(75, 47, 8), RsParams(132, 106, 8), RsParams(45, 15, 22), RsParams(54, 24, 7)])
  }

  function VersionDb27(v: nat): (i: VersionInfo)
    requires 26 <= v <= 27
    ensures InfoOk(i)
  {
    if v == 26 then
      VersionInfo(1706, [6, 30, 58, 86, 114], [RsParams(74, 46, 19), RsParams(142, 114, 10), RsParams(46, 16, 33), RsParams(50, 22, 28)])
    else
      VersionInfo(1828, [6, 34, 62, 90, 118], [RsParams(73, 45, 22), RsParams(152, 122, 8), RsParams(45, 15, 12), RsParams(53, 23, 8)])
  }

  function VersionDb30(v: nat): (i: VersionInfo)
    requires 28 <= v <= 30
    ensures InfoOk(i)
  {
    if v == 28 then
      VersionInfo(1921, [6, 26, 50, 74, 98, 122], [RsParams(73, 45, 3), RsParams(147, 117, 3), RsParams(45, 15, 11), RsParams(54, 24, 4)])
    else if v == 29 then
      VersionInfo(2051, [6, 30, 54, 78, 102, 126], [RsParams(73, 45, 21), RsParams(146, 116, 7), RsParams(45, 15, 19), RsParams(53, 23, 1)])
    else
      VersionInfo(2185, [6, 26, 52, 78, 104, 130], [RsParams(75, 47, 19), RsParams(145, 115, 5), RsParams(45, 15, 23), RsParams(54, 24, 15)])
  }

  function VersionDb32(v: nat): (i: VersionInfo)
    requires 31 <= v <= 32
    ensures InfoOk(i)
  {
    if v == 31 then
      VersionInfo(2323, [6, 30, 56, 82, 108, 134], [RsParams(74, 46, 2), RsParams(145, 115, 13), RsParams(45, 15, 23), RsParams(54, 24, 42)])
    else
      VersionInfo(2465, [6, 34, 60, 86, 112, 138], [RsParams(74, 46, 10), RsParams(145, 115, 17), RsParams(45, 15, 19), RsParams(54, 24, 10)])
  }

  function VersionDb35(v: nat): (i: VersionInfo)
    requires 33 <= v <= 35
    ensures InfoOk(i)
  {
    if v == 33 then
      VersionInfo(2611, [6, 30, 58, 86, 114, 142], [RsParams(74, 46, 14), RsParams(145, 115, 17), RsParams(45, 15, 11), RsParams(54, 24, 29)])
    else if v == 34 then
      VersionInfo(2761, [6, 34, 62, 90, 118, 146], [RsParams(74, 46, 14), RsParams(145, 115, 13), RsParams(46, 16, 59), RsParams(54, 24, 44)])
    else
      VersionInfo(2876, [6, 30, 54, 78, 102, 126, 150], [RsParams(75, 47, 12), RsParams(151, 121, 12), RsParams(45, 15, 22), RsParams(54, 24, 39)])
  }

  function VersionDb37(v: nat): (i: VersionInfo)
    requires 36 <= v <= 37
    ensures InfoOk(i)
  {
    if v == 36 then
      VersionInfo(3034, [6, 24, 50, 76, 102, 128, 154], [RsParams(75, 47, 6), RsParams(151, 121, 6), RsParams(45, 15, 2), RsParams(54, 24, 46)])
    else
      VersionInfo(3196, [6, 28, 54, 80, 106, 132, 158], [RsParams(74, 46, 29), RsParams(152, 122, 17), RsParams(45, 15, 24), RsParams(54, 24, 49)])
  }

  function VersionDb40(v: nat): (i: VersionInfo)
    requires 38 <= v <= 40
    ensures InfoOk(i)
  {
    if v == 38 then
      VersionInfo(3362, [6, 32, 58, 84, 110, 136, 162], [RsParams(74, 46, 13), RsParams(152, 122, 4), RsParams(45, 15, 42), RsParams(54, 24, 48)])
    else if v == 39 then
      VersionInfo(3532, [6, 26, 54, 82, 110, 138, 166], [RsParams(75, 47, 40), RsParams(147, 117, 20), RsParams(45, 15, 10), RsParams(54, 24, 43)])
    else
      VersionInfo(3706, [6, 30, 58, 86, 114, 142, 170], [RsParams(75, 47, 18), RsParams(148, 118, 19), RsParams(45, 15, 20), RsParams(54, 24, 34)])
  }

  function VersionDb(v: nat): (i: VersionInfo)
    requires 1 <= v <= 40
    ensures InfoOk(i)
  {
    if v <= 4 then VersionDb4(v)
    else if v <= 7 then VersionDb7(v)
    else if v <= 10 then VersionDb10(v)
    else if v <= 12 then VersionDb12(v)
    else if v <= 15 then VersionDb15(v)
    else if v <= 17 then VersionDb17(v)
    else if v <= 20 then VersionDb20(v)
    else if v <= 22 then VersionDb22(v)
    else if v <= 25 then VersionDb25(v)
    else if v <= 27 then VersionDb27(v)
    else if v <= 30 then VersionDb30(v)
    else if v <= 32 then VersionDb32(v)
    else if v <= 35 then VersionDb35(v)
    else if v <= 37 then VersionDb37(v)
    else VersionDb40(v)
  }

  // ---- the encoder's tables (level L, versions 1 to 10) ------------------------------------------------------

  /** Error correction words per block, and groups of (count, data words). */
  datatype EcL = EcL(ecPer: nat, groups: seq<(nat, nat)>)

  function EncoderEc(v: nat): EcL
    requires 1 <= v <= 10
  {
    if v == 1 then EcL(7, [(1, 19)])
    else if v == 2 then EcL(10, [(1, 34)])
    else if v == 3 then EcL(15, [(1, 55)])
    else if v == 4 then EcL(20, [(1, 80)])
    else if v == 5 then EcL(26, [(1, 108)])
    else if v == 6 then EcL(18, [(2, 68)])
    else if v == 7 then EcL(20, [(2, 78)])
    else if v == 8 then EcL(24, [(2, 97)])
    else if v == 9 then EcL(30, [(2, 116)])
    else EcL(18, [(2, 68), (2, 69)])
  }

  function EncoderAlign(v: nat): seq<nat>
    requires 1 <= v <= 10
  {
    if v == 1 then []
    else if v == 2 then [6, 18]
    else if v == 3 then [6, 22]
    else if v == 4 then [6, 26]
    else if v == 5 then [6, 30]
    else if v == 6 then [6, 34]
    else if v == 7 then [6, 22, 38]
    else if v == 8 then [6, 24, 42]
    else if v == 9 then [6, 26, 46]
    else [6, 28, 50]
  }

  /** Sum of count times data words. */
  function GroupsTotal(groups: seq<(nat, nat)>): nat {
    if groups == [] then 0 else groups[0].0 * groups[0].1 + GroupsTotal(groups[1..])
  }

  function DataCodewords(v: nat): nat
    requires 1 <= v <= 10
  {
    GroupsTotal(EncoderEc(v).groups)
  }

  /** Payload bytes that fit: a byte for mode and half the count, and one or two for the count. */
  function Capacity(v: nat): int
    requires 1 <= v <= 10
  {
    if v <= 9 then DataCodewords(v) - 2 else DataCodewords(v) - 3
  }

  /** The index of level L in the decoder's tables. */
  const LEVEL_L := 1

  /** The two programs describe the same blocks: short ones first, then, in version 10 only, long ones. */
  ghost predicate Agree(v: nat)
    requires 1 <= v <= 10
  {
    var i, e := VersionDb(v), EncoderEc(v);
    var p := i.ecc[LEVEL_L];
    var long := LongBlocks(i.dataBytes, p);
    && e.ecPer == p.bs - p.dw
    && e.groups == (if v == 10 then [(p.ns, p.dw), (long, p.dw + 1)] else [(p.ns, p.dw)])
    && long == (if v == 10 then 2 else 0)
    && i.apat == EncoderAlign(v)
    && DataCodewords(v) == p.dw * p.ns + (p.dw + 1) * long
    && i.dataBytes == DataCodewords(v) + e.ecPer * (p.ns + long)
  }

  lemma AgreeOne()
    ensures Agree(1)
  {
  }

  lemma AgreeTwo()
    ensures Agree(2)
  {
  }

  lemma AgreeThree()
    ensures Agree(3)
  {
  }

  lemma AgreeFour()
    ensures Agree(4)
  {
  }

  lemma AgreeFive()
    ensures Agree(5)
  {
  }

  lemma AgreeSix()
    ensures Agree(6)
  {
  }

  lemma AgreeSeven()
    ensures Agree(7)
  {
  }

  lemma AgreeEight()
    ensures Agree(8)
  {
  }

  lemma AgreeNine()
    ensures Agree(9)
  {
  }

  lemma AgreeTen()
    ensures Agree(10)
  {
  }

  lemma TablesAgree(v: nat)
    requires 1 <= v <= 10
    ensures Agree(v)
  {
    hide Agree;
    if v == 1 {
      AgreeOne();
    } else if v == 2 {
      AgreeTwo();
    } else if v == 3 {
      AgreeThree();
    } else if v == 4 {
      AgreeFour();
    } else if v == 5 {
      AgreeFive();
    } else if v == 6 {
      AgreeSix();
    } else if v == 7 {
      AgreeSeven();
    } else if v == 8 {
      AgreeEight();
    } else if v == 9 {
      AgreeNine();
    } else {
      AgreeTen();
    }
  }
}
