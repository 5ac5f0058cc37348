/** What a symbol looks like in the figures of ISO/IEC 18004, and what is read from one: colours and bytes
    spelled out, so that the encoder and the decoder are compared with the standard and not only with each other. */
module SymbolLaws {
  import opened BitStream
  import opened Versions
  import opened Geometry
  import opened Grid
  import opened Format
  import opened QrEncode
  import opened CodeWords
  import GridCapacity
  import QrDecode

  // ---- bits -------------------------------------------------------------------------------------------------------------

  const POWERS: seq<nat> :=
    [1, 2, 4, 8, 16, 32, 64, 128, 256, 512, 1024, 2048, 4096, 8192, 16384, 32768, 65536, 131072]

  lemma PowersTo(j: nat)
    requires j < 18
    ensures Pow2(j) == POWERS[j] > 0
  {
    PowersOfTwo();
    assert Pow2(9) == 512 && Pow2(10) == 1024;
    assert Pow2(11) == 2048 && Pow2(12) == 4096;
    assert Pow2(13) == 8192 && Pow2(14) == 16384;
    assert Pow2(15) == 32768 && Pow2(16) == 65536;
    assert Pow2(17) == 131072;
  }

  /** Bits of a word are counted from the lowest. */
  lemma BitIs(u: nat, j: nat)
    requires j < 18
    ensures Bit(u, j) <==> u / POWERS[j] % 2 == 1
  {
    PowersTo(j);
  }

  /** Bits of a byte in a stream are counted from the highest. */
  lemma BitAtIs(b: nat, k: nat)
    requires k < 8
    ensures BitAt(b, k) <==> b / [128, 64, 32, 16, 8, 4, 2, 1][k] % 2 == 1
  {
    BitsOfAt(b, 8, k);
    PowersTo(7 - k);
  }

  // ---- versions and format words ------------------------------------------------------------------------------------------

  /** The payload lengths of the ten versions. */
  lemma VersionFor(n: nat, v: nat)
    ensures Smallest(n, v) <==>
      && 1 <= v <= 10 && n <= [17, 32, 53, 78, 106, 134, 154, 192, 230, 271][v - 1]
      && (v > 1 ==> n > [17, 32, 53, 78, 106, 134, 154, 192, 230, 271][v - 2])
  {
    hide Capacity;
    if 1 <= v <= 10 {
      Capacities();
      if Smallest(n, v) {
        assert v > 1 ==> n > Capacity(v - 1);
      } else if n <= Capacity(v) {
        var u: nat :| 1 <= u < v && n <= Capacity(u);
      }
    }
  }

  lemma Capacities()
    ensures forall v: nat :: 1 <= v <= 10 ==> Capacity(v) == [17, 32, 53, 78, 106, 134, 154, 192, 230, 271][v - 1]
  {
  }

  /** Both copies of the format word are drawn where Figure 25 of ISO/IEC 18004:2015 has them. */
  lemma FormatPicture(v: nat, m: Matrix, mask: nat, sent: seq<nat>, i: nat)
    requires 1 <= v <= 40 && Shows(v, m, mask, sent) && mask < 8 && i < 15
    ensures var n := 4 * v + 17;
      var word := [0x77c4, 0x72f3, 0x7daa, 0x789d, 0x662f, 0x6318, 0x6c41, 0x6976][mask];
      var dark := word / POWERS[i] % 2 == 1;
      && Cell(m, [0, 1, 2, 3, 4, 5, 7, 8, 8, 8, 8, 8, 8, 8, 8][i], [8, 8, 8, 8, 8, 8, 8, 8, 7, 5, 4, 3, 2, 1, 0][i]) == dark
      && (if i < 8 then Cell(m, 8, n - 1 - i) else Cell(m, n - 15 + i, 8)) == dark
  {
    hide Cell, Bit, FormatBits, IsSquare, Wanted, MaskBit;
    FormatWords(mask);
    BitIs(FormatBits(mask), i);
  }

  /** Both copies of the version word, from version 7 on. */
  lemma VersionPicture(v: nat, m: Matrix, i: nat)
    requires 7 <= v <= 10 && PatternsShown(v, m) && i < 18
    ensures var dark := [0x07c94, 0x085bc, 0x09a99, 0x0a4d3][v - 7] / POWERS[i] % 2 == 1;
      Cell(m, 4 * v + 6 + i % 3, i / 3) == dark && Cell(m, i / 3, 4 * v + 6 + i % 3) == dark
  {
    hide Cell, Bit, VersionWord, FindersShown, GridCapacity.InAlignment, OnTimingLine;
    VersionWords(v);
    BitIs(VersionWord(v), i);
    var r: nat, c: nat := 4 * v + 6 + i % 3, i / 3;
    assert PatternShown(v, m, r, c) && PatternShown(v, m, c, r);
  }

  // ---- patterns -----------------------------------------------------------------------------------------------------------

  lemma FinderCell(r: int, c: int)
    requires 0 <= r < 8 && 0 <= c < 8
    ensures (Ring(3, 3, r, c) != 2 && Ring(3, 3, r, c) != 4) ==
      (["#######.", "#.....#.", "#.###.#.", "#.###.#.", "#.###.#.", "#.....#.", "#######.", "........"][r][c] == '#')
  {
    assert (r == 0 || r == 1 || r == 2 || r == 3 || r == 4 || r == 5 || r == 6 || r == 7);
    assert (c == 0 || c == 1 || c == 2 || c == 3 || c == 4 || c == 5 || c == 6 || c == 7);
  }

  /** The three finders with their separators; the other two are mirror images of the first. */
  lemma FinderPicture(v: nat, m: Matrix, r: nat, c: nat)
    requires 1 <= v <= 10 && PatternsShown(v, m) && r < 8 && c < 8
    ensures var n := 4 * v + 17;
      var dark := ["#######.", "#.....#.", "#.###.#.", "#.###.#.", "#.###.#.", "#.....#.", "#######.", "........"][r][c] == '#';
      Cell(m, r, c) == dark && Cell(m, r, n - 1 - c) == dark && Cell(m, n - 1 - r, c) == dark
  {
    hide Cell, OthersShown, Ring;
    var n := 4 * v + 17;
    FinderCell(r, c);
    RingMirrors(n, r, c);
    var right: nat, low: nat := n - 1 - c, n - 1 - r;
    assert Cell(m, r, c) == FinderDark(3, 3)(r, c);
    assert Cell(m, r, right) == FinderDark(3, n - 4)(r, right);
    assert Cell(m, low, c) == FinderDark(n - 4, 3)(low, c);
  }

  lemma RingMirrors(n: int, r: int, c: int)
    requires 0 <= r < 8 && 0 <= c < 8
    ensures Ring(3, n - 4, r, n - 1 - c) == Ring(3, 3, r, c) == Ring(n - 4, 3, n - 1 - r, c) <= 4
  {
  }

  /** The timing lines between the finders are dark at even places; one module above the lower finder is always dark. */
  lemma TimingPicture(v: nat, m: Matrix, i: nat)
    requires 1 <= v <= 10 && PatternsShown(v, m) && 8 <= i < 4 * v + 9
    ensures Cell(m, 6, i) == Cell(m, i, 6) == (i % 2 == 0) && Cell(m, 4 * v + 9, 8)
  {
    hide Cell, FindersShown, GridCapacity.InAlignment, InVersionBlock;
    assert PatternShown(v, m, 6, i) && PatternShown(v, m, i, 6);
    TimingDarkIs(6, i);
    TimingDarkIs(i, 6);
  }

  lemma AlignmentCell(r: int, c: int)
    requires 0 <= r < 5 && 0 <= c < 5
    ensures (Ring(2, 2, r, c) != 1) == (["#####", "#...#", "#.#.#", "#...#", "#####"][r][c] == '#')
  {
    assert (r == 0 || r == 1 || r == 2 || r == 3 || r == 4) && (c == 0 || c == 1 || c == 2 || c == 3 || c == 4);
  }

  /** An alignment pattern around every pair of centre lines that is not in a finder's corner.  The lines are those of
      Table E.1 of ISO/IEC 18004:2015. */
  lemma AlignmentPicture(v: nat, m: Matrix, a: nat, b: nat, r: nat, c: nat)
    requires 2 <= v <= 10 && PatternsShown(v, m) && r < 5 && c < 5
    requires var lines := [[6, 18], [6, 22], [6, 26], [6, 30], [6, 34], [6, 22, 38], [6, 24, 42], [6, 26, 46], [6, 28, 50]][v - 2];
      a in lines && b in lines && !(a == 6 && (b == 6 || b == 4 * v + 10)) && !(b == 6 && a == 4 * v + 10)
    ensures Cell(m, a - 2 + r, b - 2 + c) == (["#####", "#...#", "#.#.#", "#...#", "#####"][r][c] == '#')
  {
    hide Cell, FindersShown, InVersionBlock, OnTimingLine, Ring;
    CentreLines(v, a, b);
    var i: nat, j: nat := a - 2 + r, b - 2 + c;
    assert PatternShown(v, m, i, j);
    AlignmentsDarkIs(v, i, j);
    RingMoves(a, b, i, j, r, c);
    AlignmentCell(r, c);
  }

  lemma CentreLines(v: nat, a: nat, b: nat)
    requires 2 <= v <= 10
    requires var lines := [[6, 18], [6, 22], [6, 26], [6, 30], [6, 34], [6, 22, 38], [6, 24, 42], [6, 26, 46], [6, 28, 50]][v - 2];
      a in lines && b in lines && !(a == 6 && (b == 6 || b == 4 * v + 10)) && !(b == 6 && a == 4 * v + 10)
    ensures (a == 6 || a == 4 * v + 10 || (v >= 7 && a == 2 * v + 8)) && (b == 6 || b == 4 * v + 10 || (v >= 7 && b == 2 * v + 8))
  {
  }

  lemma RingMoves(a: int, b: int, i: int, j: int, r: int, c: int)
    requires i == a - 2 + r && j == b - 2 + c
    ensures Ring(a, b, i, j) == Ring(2, 2, r, c)
  {
  }

  // ---- data modules -------------------------------------------------------------------------------------------------------

  /** The module at step t of column pair k shows its bit of the stream, highest bit of a byte first, inverted where the
      mask says so.  Pairs run from the right edge, column 6 belongs to none, even pairs are read upwards. */
  lemma DataPicture(v: nat, m: Matrix, mask: nat, sent: seq<nat>, k: nat, t: nat, r: nat, c: nat, i: nat, j: nat)
    requires 1 <= v <= 40 && Shows(v, m, mask, sent) && k < 2 * v + 8 && t < 8 * v + 34 && Free(v, k, t)
    requires Pos(v, k, t) == 8 * i + j && j < 8
    requires r == if k % 2 == 0 then 4 * v + 16 - t / 2 else t / 2
    requires c == (if k <= 2 * v + 4 then 4 * v + 16 - 2 * k else 4 * v + 15 - 2 * k) - t % 2
    ensures r < |m| && c < |m[r]| && m[r][c] == ((i < |sent| && BitAt(sent[i], j)) != MaskBit(mask, r, c))
  {
    hide Cell, Free, Pos, MaskBit, FormatBits, Bit, BitAt, Reserved;
    CellIs(m, 4 * v + 17, r, c);
  }

  /** Module (r, c) of a sampled symbol, eight modules to a byte and the lowest bit first. */
  lemma SampledModule(v: nat, bitmap: seq<nat>, r: nat, c: nat, p: nat, q: nat)
    requires v <= 40 && |bitmap| == 3917 && r < 4 * v + 17 && c < 4 * v + 17 && r * (4 * v + 17) + c == 8 * p + q && q < 8
    ensures p < |bitmap| && QrDecode.GridBit(v, bitmap, c, r) == Bit(bitmap[p], q)
  {
    QrDecode.CellNumberBound(v, c, r);
  }

  lemma RawBitIs(v: nat, bitmap: seq<nat>, mask: nat, raw: seq<nat>, k: nat, t: nat)
    requires 1 <= v <= 40 && |bitmap| == 3917 && QrDecode.RawBits(v, bitmap, mask, raw)
    requires k < Pairs(v) && t < 2 * Size(v) && Free(v, k, t)
    ensures Pos(v, k, t) < 8 * |raw| && StreamBit(raw, Pos(v, k, t)) == QrDecode.DataBit(v, bitmap, mask, k, t)
  {
    hide Free, Pos, QrDecode.DataBit, StreamBit;
    QrDecode.PosInBuffer(v, k, t);
    assert QrEncode.Earlier(k, t, Pairs(v) - 1, 2 * Size(v));
  }

  /** What the decoder takes for bit 8i + j of the stream: the module it was drawn in, inverted back. */
  lemma ReadPicture(v: nat, bitmap: seq<nat>, mask: nat, raw: seq<nat>, k: nat, t: nat, r: nat, c: nat,
                    i: nat, j: nat, p: nat, q: nat)
    requires 1 <= v <= 40 && |bitmap| == 3917 && mask < 8 && QrDecode.RawBits(v, bitmap, mask, raw)
    requires k < 2 * v + 8 && t < 8 * v + 34 && Free(v, k, t)
    requires r == if k % 2 == 0 then 4 * v + 16 - t / 2 else t / 2
    requires c == (if k <= 2 * v + 4 then 4 * v + 16 - 2 * k else 4 * v + 15 - 2 * k) - t % 2
    requires Pos(v, k, t) == 8 * i + j && j < 8 && r * (4 * v + 17) + c == 8 * p + q && q < 8
    ensures i < |raw| && p < |bitmap|
    ensures BitAt(raw[i], j) == (Bit(bitmap[p], q) != MaskBit(mask, r, c))
  {
    hide Free, Pos, MaskBit, QrDecode.MaskBit, QrDecode.GridBit, QrDecode.RawBits, Reserved, Bit, BitAt;
    QrDecode.PosInBuffer(v, k, t);
    RawBitIs(v, bitmap, mask, raw, k, t);
    QrDecode.MasksAgree(mask, r, c);
    SampledModule(v, bitmap, r, c, p, q);
  }
}
