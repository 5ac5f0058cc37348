/** The encoder's module matrix and its drawing operations. */
module Grid {
  import opened Bits
  import opened Versions
  import opened Geometry
  import opened Format
  import GridCapacity

  // ---- matrices -----------------------------------------------------------------------------------------------------------

  type Matrix = seq<seq<bool>>

  predicate IsSquare(m: Matrix, n: nat) {
    |m| == n && forall r :: 0 <= r < n ==> |m[r]| == n
  }

  /** Light outside the matrix. */
  function Cell(m: Matrix, r: int, c: int): bool {
    0 <= r < |m| && 0 <= c < |m[r]| && m[r][c]
  }

  function Put(m: Matrix, r: nat, c: nat, dark: bool): Matrix
    requires r < |m| && c < |m[r]|
  {
    m[r := m[r][c := dark]]
  }

  lemma PutCell(m: Matrix, n: nat, r: nat, c: nat, dark: bool)
    requires IsSquare(m, n) && r < n && c < n
    ensures IsSquare(Put(m, r, c, dark), n)
    ensures forall i, j :: Cell(Put(m, r, c, dark), i, j) == if i == r && j == c then dark else Cell(m, i, j)
  {
  }

  type Region = (int, int) -> bool

  /** From m to m' the region took the given values and nothing else changed. */
  ghost predicate Paints(n: nat, m: Matrix, m': Matrix, region: Region, value: Region) {
    forall r: int, c: int {:trigger Cell(m', r, c)} :: 0 <= r < n && 0 <= c < n ==>
      Cell(m', r, c) == if region(r, c) then value(r, c) else Cell(m, r, c)
  }

  /** The region was drawn and marked as function modules. */
  ghost predicate Draws(n: nat, m: Matrix, f: Matrix, m': Matrix, f': Matrix, region: Region, value: Region) {
    Paints(n, m, m', region, value) && Paints(n, f, f', region, Everywhere())
  }

  function Everywhere(): Region { (r, c) => true }

  /** One more module of a drawing. */
  lemma DrawOne(n: nat, m: Matrix, f: Matrix, m': Matrix, f': Matrix, region: Region, region': Region, value: Region,
                r: nat, c: nat, dark: bool)
    requires IsSquare(m', n) && IsSquare(f', n) && r < n && c < n && value(r, c) == dark
    requires Draws(n, m, f, m', f', region, value)
    requires forall i, j :: 0 <= i < n && 0 <= j < n ==> region'(i, j) == (region(i, j) || (i == r && j == c))
    ensures Draws(n, m, f, Put(m', r, c, dark), Put(f', r, c, true), region', value)
  {
    hide Cell, IsSquare, Put;
    PutCell(m', n, r, c, dark);
    PutCell(f', n, r, c, true);
  }

  lemma DrawNone(n: nat, m: Matrix, f: Matrix, region: Region, value: Region)
    requires forall i, j :: 0 <= i < n && 0 <= j < n ==> !region(i, j)
    ensures Draws(n, m, f, m, f, region, value)
  {
  }

  lemma SameRegion(n: nat, m: Matrix, f: Matrix, m': Matrix, f': Matrix, region: Region, region': Region, value: Region)
    requires Draws(n, m, f, m', f', region, value)
    requires forall i, j :: 0 <= i < n && 0 <= j < n ==> region'(i, j) == region(i, j)
    ensures Draws(n, m, f, m', f', region', value)
  {
    hide Cell;
  }

  function Abs(x: int): nat { if x < 0 then -x else x }

  /** Distance in king's moves. */
  function Ring(row: int, col: int, r: int, c: int): nat {
    if Abs(r - row) > Abs(c - col) then Abs(r - row) else Abs(c - col)
  }

  function Within(row: int, col: int, d: nat): Region { (r, c) => Ring(row, col, r, c) <= d }

  function FinderDark(row: int, col: int): Region { (r, c) => Ring(row, col, r, c) != 2 && Ring(row, col, r, c) != 4 }

  function AlignmentDark(row: int, col: int): Region { (r, c) => Ring(row, col, r, c) != 1 }

  /** The part of a square around (row, col) drawn before step (dy, dx) of the two loops. */
  function Before(row: int, col: int, d: nat, dy: int, dx: int): Region {
    (r, c) => Ring(row, col, r, c) <= d && (r - row < dy || (r - row == dy && c - col < dx))
  }

  function Timing(): Region { (r, c) => r == 6 || c == 6 }

  function TimingBefore(i: int, j: int): Region { (r, c) => (r == 6 && c < i) || (c == 6 && r < j) }

  function TimingDark(): Region { (r, c) => (if r == 6 then c else r) % 2 == 0 }

  // ---- format modules --------------------------------------------------------------------------------------------------------

  /** Format bit i, first copy. */
  function Row1(i: nat): nat { if i <= 5 then i else if i == 6 then 7 else 8 }

  function Col1(i: nat): int { if i <= 7 then 8 else if i == 8 then 7 else 14 - i }

  /** Format bit i, second copy. */
  function Row2(size: nat, i: nat): int { if i < 8 then 8 else size - 15 + i }

  function Col2(size: nat, i: nat): int { if i < 8 then size - 1 - i else 8 }

  /** Which bit of the first copy a module shows, or -1. */
  function Index1(r: int, c: int): int {
    if c == 8 && 0 <= r <= 5 then r
    else if c == 8 && 7 <= r <= 8 then r - 1
    else if r == 8 && c == 7 then 8
    else if r == 8 && 0 <= c <= 5 then 14 - c
    else -1
  }

  /** Which bit of the second copy a module shows, or -1. */
  function Index2(size: nat, r: int, c: int): int {
    if r == 8 && size - 8 <= c < size then size - 1 - c
    else if c == 8 && size - 7 <= r < size then r - size + 15
    else -1
  }

  function FormatBefore(size: nat, n1: nat, n2: nat): Region {
    (r, c) => 0 <= Index1(r, c) < n1 || 0 <= Index2(size, r, c) < n2
  }

  /** Both copies of the format word, and the dark module. */
  function InFormat(size: nat): Region {
    (r, c) => Index1(r, c) >= 0 || Index2(size, r, c) >= 0 || (r == size - 8 && c == 8)
  }

  function FormatDark(size: nat, bits: nat): Region {
    (r, c) =>
      if Index1(r, c) >= 0 then Bit(bits, Index1(r, c))
      else if Index2(size, r, c) >= 0 then Bit(bits, Index2(size, r, c))
      else true
  }

  lemma FormatPlace(size: nat, bits: nat, n: nat, r: nat, c: nat)
    requires Index1(r, c) == n
    ensures FormatDark(size, bits)(r, c) == Bit(bits, n)
    ensures forall i, j :: 0 <= i < size && 0 <= j < size ==>
      FormatBefore(size, n + 1, 0)(i, j) == (FormatBefore(size, n, 0)(i, j) || (i == r && j == c))
  {
    hide Bit;
    forall i, j | 0 <= i < size && 0 <= j < size
      ensures FormatBefore(size, n + 1, 0)(i, j) == (FormatBefore(size, n, 0)(i, j) || (i == r && j == c))
    {
      if Index1(i, j) == n {
        assert i == r && j == c;
      }
    }
  }

  /** The fifteen bits for level L and a mask. */
  function FormatBits(mask: nat): nat {
    Xor(FormatWord(8 + mask), FORMAT_MASK)
  }

  /** The remainder register, ten steps. */
  method FormatRemainder(mask: nat) returns (bits: nat)
    ensures bits == FormatBits(mask)
  {
    hide Xor;
    var data := 8 + mask;
    var rem := data;
    for i := 0 to 10
      invariant rem == RemSteps(data, i)
    {
      rem := Xor(2 * rem, rem / 512 * 0x537);
    }
    bits := Xor(data * 1024 + rem, 0x5412);
  }

  // ---- version modules ----------------------------------------------------------------------------------------------------------

  function VersionSteps(v: nat, n: nat): nat {
    if n == 0 then v
    else
      var rem := VersionSteps(v, n - 1);
      Xor(2 * rem, rem / 2048 * 0x1f25)
  }

  /** The register stays below 2^12, so that joining it to the version is an addition. */
  lemma {:induction false} VersionSmall(v: nat, n: nat)
    requires v < 64
    ensures VersionSteps(v, n) < 4096
  {
    hide Xor;
    if n > 0 {
      VersionSmall(v, n - 1);
      var r := VersionSteps(v, n - 1);
      if r < 2048 {
        assert r / 2048 * 0x1f25 == 0;
        XorZero(2 * r);
      } else {
        assert r / 2048 == 1;
        assert IsPow2(4096);
        XorTop(4096, 2 * r, 0x1f25);
      }
    }
  }

  function VersionWord(v: nat): nat {
    v * 4096 + VersionSteps(v, 12)
  }

  /** Which version bit a module of the lower left block shows, or -1; the upper right block is its transpose. */
  function VersionIndex(size: nat, r: int, c: int): int {
    if size - 11 <= r < size - 8 && 0 <= c < 6 then 3 * c + r - (size - 11) else -1
  }

  function VersionBefore(size: nat, n1: nat, n2: nat): Region {
    (r, c) => 0 <= VersionIndex(size, r, c) < n1 || 0 <= VersionIndex(size, c, r) < n2
  }

  function VersionDark(size: nat, v: nat): Region {
    (r, c) =>
      if VersionIndex(size, r, c) >= 0 then Bit(VersionWord(v), VersionIndex(size, r, c))
      else VersionIndex(size, c, r) >= 0 && Bit(VersionWord(v), VersionIndex(size, c, r))
  }

  method VersionRemainder(v: nat) returns (bits: nat)
    ensures bits == VersionWord(v)
  {
    hide Xor;
    var rem := v;
    for i := 0 to 12
      invariant rem == VersionSteps(v, i)
    {
      rem := Xor(2 * rem, rem / 2048 * 0x1f25);
    }
    bits := v * 4096 + rem;
  }

  // ---- alignment patterns -------------------------------------------------------------------------------------------------

  /** The encoder's test for centres that fall on a finder. */
  predicate Skipped(size: nat, cy: nat, cx: nat) {
    (cy <= 8 && cx <= 8) || (cy <= 8 && cx + 9 >= size) || (cy + 9 >= size && cx <= 8)
  }

  lemma SkippedIsOnFinder(v: nat, a: nat, b: nat)
    requires 1 <= v <= 10 && a < |EncoderAlign(v)| && b < |EncoderAlign(v)|
    ensures Skipped(Size(v), EncoderAlign(v)[a], EncoderAlign(v)[b]) == OnFinder(|EncoderAlign(v)|, a, b)
    ensures 6 <= EncoderAlign(v)[a] <= 4 * v + 10
  {
    hide EncoderAlign;
    GridCapacity.AlignLines(v);
  }

  /** Covered by a pattern before centre (a, b) in the two loops. */
  ghost predicate CoveredBefore(apat: seq<nat>, a: nat, b: nat, r: nat, c: nat) {
    exists a': nat, b': nat :: (a' < a || (a' == a && b' < b)) && Covers(apat, a', b', r, c)
  }

  lemma CoveredStep(apat: seq<nat>, a: nat, b: nat, r: nat, c: nat)
    ensures CoveredBefore(apat, a, b + 1, r, c) <==> CoveredBefore(apat, a, b, r, c) || Covers(apat, a, b, r, c)
    ensures CoveredBefore(apat, a, |apat|, r, c) <==> CoveredBefore(apat, a + 1, 0, r, c)
    ensures CoveredBefore(apat, |apat|, 0, r, c) <==> Aligned(apat, r, c)
    ensures !CoveredBefore(apat, 0, 0, r, c)
  {
    hide Covers;
    forall a': nat, b': nat | Covers(apat, a', b', r, c) ensures a' < |apat| && b' < |apat| {
      CoversInside(apat, a', b', r, c);
    }
    if CoveredBefore(apat, a, b + 1, r, c) {
      var a': nat, b': nat :| (a' < a || (a' == a && b' < b + 1)) && Covers(apat, a', b', r, c);
      assert (a' == a && b' == b) || (a' < a || (a' == a && b' < b));
    }
    if CoveredBefore(apat, a + 1, 0, r, c) {
      var a': nat, b': nat :| (a' < a + 1) && Covers(apat, a', b', r, c);
      assert a' < a || (a' == a && b' < |apat|);
    }
  }

  lemma CoversInside(apat: seq<nat>, a: nat, b: nat, r: nat, c: nat)
    requires Covers(apat, a, b, r, c)
    ensures a < |apat| && b < |apat|
  {
  }

  /** The centre line a row or column of a pattern belongs to; lines are too far apart for two. */
  function Line(v: nat, i: int): nat {
    if -3 < i - 6 < 3 then 6
    else if v >= 7 && -3 < i - GridCapacity.Middle(v) < 3 then GridCapacity.Middle(v)
    else GridCapacity.Last(v)
  }

  /** The colour of a module inside an alignment pattern. */
  function AlignmentsDark(v: nat): Region { (r, c) => Ring(Line(v, r), Line(v, c), r, c) != 1 }

  lemma LineIs(v: nat, a: nat, i: nat)
    requires 1 <= v <= 10 && a < |EncoderAlign(v)| && Near(EncoderAlign(v)[a], i)
    ensures Line(v, i) == EncoderAlign(v)[a]
  {
    hide EncoderAlign;
    GridCapacity.AlignLines(v);
  }

  /** The patterns before centre (a, b) were drawn over m and f. */
  ghost predicate Aligns(n: nat, v: nat, a: nat, b: nat, m: Matrix, f: Matrix, m': Matrix, f': Matrix)
    requires 1 <= v <= 10
  {
    forall r: nat, c: nat {:trigger Cell(m', r, c)} {:trigger Cell(f', r, c)} :: r < n && c < n ==>
      && Cell(f', r, c) == (Cell(f, r, c) || CoveredBefore(EncoderAlign(v), a, b, r, c))
      && Cell(m', r, c) == if CoveredBefore(EncoderAlign(v), a, b, r, c) then AlignmentsDark(v)(r, c) else Cell(m, r, c)
  }

  lemma AlignsStep(n: nat, v: nat, a: nat, b: nat, m: Matrix, f: Matrix, m0: Matrix, f0: Matrix, m': Matrix, f': Matrix)
    requires 1 <= v <= 10 && a < |EncoderAlign(v)| && b < |EncoderAlign(v)| && Aligns(n, v, a, b, m, f, m0, f0)
    requires OnFinder(|EncoderAlign(v)|, a, b) ==> m' == m0 && f' == f0
    requires !OnFinder(|EncoderAlign(v)|, a, b) ==>
      Draws(n, m0, f0, m', f', Within(EncoderAlign(v)[a], EncoderAlign(v)[b], 2), AlignmentDark(EncoderAlign(v)[a], EncoderAlign(v)[b]))
    ensures Aligns(n, v, a, b + 1, m, f, m', f')
  {
    hide Cell, CoveredBefore, EncoderAlign, Line;
    var apat := EncoderAlign(v);
    forall r: nat, c: nat | r < n && c < n
      ensures Cell(f', r, c) == (Cell(f, r, c) || CoveredBefore(apat, a, b + 1, r, c))
      ensures Cell(m', r, c) == if CoveredBefore(apat, a, b + 1, r, c) then AlignmentsDark(v)(r, c) else Cell(m, r, c)
    {
      CoveredStep(apat, a, b, r, c);
      assert Cell(f0, r, c) == (Cell(f, r, c) || CoveredBefore(apat, a, b, r, c));
      assert Covers(apat, a, b, r, c) <==> !OnFinder(|apat|, a, b) && Within(apat[a], apat[b], 2)(r, c);
      if Covers(apat, a, b, r, c) {
        LineIs(v, a, r);
        LineIs(v, b, c);
      }
    }
  }

  lemma AlignsNextRow(n: nat, v: nat, a: nat, m: Matrix, f: Matrix, m': Matrix, f': Matrix)
    requires 1 <= v <= 10 && Aligns(n, v, a, |EncoderAlign(v)|, m, f, m', f')
    ensures Aligns(n, v, a + 1, 0, m, f, m', f')
  {
    var apat := EncoderAlign(v);
    hide EncoderAlign, AlignmentsDark;
    hide Cell, CoveredBefore;
    forall r: nat, c: nat ensures CoveredBefore(apat, a, |apat|, r, c) <==> CoveredBefore(apat, a + 1, 0, r, c) {
      CoveredStep(apat, a, 0, r, c);
    }
  }

  lemma AlignsNone(n: nat, v: nat, m: Matrix, f: Matrix)
    requires 1 <= v <= 10
    ensures Aligns(n, v, 0, 0, m, f, m, f)
  {
    hide Cell, CoveredBefore, EncoderAlign, AlignmentsDark;
    forall r: nat, c: nat ensures !CoveredBefore(EncoderAlign(v), 0, 0, r, c) {
      CoveredStep(EncoderAlign(v), 0, 0, r, c);
    }
  }

  // ---- the grid -------------------------------------------------------------------------------------------------------------------

  class Grid {
    const size: nat
    var modules: Matrix
    var isFunction: Matrix

    constructor (n: nat)
      ensures size == n && Valid()
      ensures forall r, c :: !Cell(modules, r, c) && !Cell(isFunction, r, c)
    {
      size := n;
      modules := seq(n, _ => seq(n, _ => false));
      isFunction := seq(n, _ => seq(n, _ => false));
    }

    ghost predicate Valid()
      reads this
    {
      IsSquare(modules, size) && IsSquare(isFunction, size)
    }

    method Set(r: nat, c: nat, dark: bool)
      requires Valid() && r < size && c < size
      modifies this
      ensures Valid()
      ensures modules == Put(old(modules), r, c, dark) && isFunction == Put(old(isFunction), r, c, true)
    {
      PutCell(modules, size, r, c, dark);
      PutCell(isFunction, size, r, c, true);
      modules := Put(modules, r, c, dark);
      isFunction := Put(isFunction, r, c, true);
    }

    /** The square of radius 4 around the centre, clipped to the grid. */
    method DrawFinder(row: int, col: int)
      requires Valid()
      modifies this
      ensures Valid()
      ensures Draws(size, old(modules), old(isFunction), modules, isFunction, Within(row, col, 4), FinderDark(row, col))
    {
      hide Cell, IsSquare, Put, Draws;
      ghost var m, f := modules, isFunction;
      ghost var value := FinderDark(row, col);
      DrawNone(size, m, f, Before(row, col, 4, -4, -4), value);
      for dy := -4 to 5
        invariant Valid()
        invariant Draws(size, m, f, modules, isFunction, Before(row, col, 4, dy, -4), value)
      {
        for dx := -4 to 5
          invariant Valid()
          invariant Draws(size, m, f, modules, isFunction, Before(row, col, 4, dy, dx), value)
        {
          var r, c := row + dy, col + dx;
          var dist := Ring(0, 0, dy, dx);
          ghost var next := Before(row, col, 4, dy, dx + 1);
          if r < 0 || r >= size || c < 0 || c >= size {
            SameRegion(size, m, f, modules, isFunction, Before(row, col, 4, dy, dx), next, value);
            continue;
          }
          DrawOne(size, m, f, modules, isFunction, Before(row, col, 4, dy, dx), next, value, r, c, dist != 2 && dist != 4);
          Set(r, c, dist != 2 && dist != 4);
        }
        SameRegion(size, m, f, modules, isFunction, Before(row, col, 4, dy, 5), Before(row, col, 4, dy + 1, -4), value);
      }
      SameRegion(size, m, f, modules, isFunction, Before(row, col, 4, 5, -4), Within(row, col, 4), value);
    }

    method DrawAlignment(row: nat, col: nat)
      requires Valid() && 2 <= row < size - 2 && 2 <= col < size - 2
      modifies this
      ensures Valid()
      ensures Draws(size, old(modules), old(isFunction), modules, isFunction, Within(row, col, 2), AlignmentDark(row, col))
    {
      hide Cell, IsSquare, Put, Draws;
      ghost var m, f := modules, isFunction;
      ghost var value := AlignmentDark(row, col);
      DrawNone(size, m, f, Before(row, col, 2, -2, -2), value);
      for dy := -2 to 3
        invariant Valid()
        invariant Draws(size, m, f, modules, isFunction, Before(row, col, 2, dy, -2), value)
      {
        for dx := -2 to 3
          invariant Valid()
          invariant Draws(size, m, f, modules, isFunction, Before(row, col, 2, dy, dx), value)
        {
          var dist := Ring(0, 0, dy, dx);
          DrawOne(size, m, f, modules, isFunction, Before(row, col, 2, dy, dx), Before(row, col, 2, dy, dx + 1), value,
                  row + dy, col + dx, dist != 1);
          Set(row + dy, col + dx, dist != 1);
        }
        SameRegion(size, m, f, modules, isFunction, Before(row, col, 2, dy, 3), Before(row, col, 2, dy + 1, -2), value);
      }
      SameRegion(size, m, f, modules, isFunction, Before(row, col, 2, 3, -2), Within(row, col, 2), value);
    }

    method DrawTiming()
      requires Valid() && size >= 7
      modifies this
      ensures Valid()
      ensures Draws(size, old(modules), old(isFunction), modules, isFunction, Timing(), TimingDark())
    {
      hide Cell, IsSquare, Put, Draws;
      ghost var m, f := modules, isFunction;
      DrawNone(size, m, f, TimingBefore(0, 0), TimingDark());
      for i := 0 to size
        invariant Valid()
        invariant Draws(size, m, f, modules, isFunction, TimingBefore(i, i), TimingDark())
      {
        DrawOne(size, m, f, modules, isFunction, TimingBefore(i, i), TimingBefore(i + 1, i), TimingDark(), 6, i, i % 2 == 0);
        Set(6, i, i % 2 == 0);
        DrawOne(size, m, f, modules, isFunction, TimingBefore(i + 1, i), TimingBefore(i + 1, i + 1), TimingDark(), i, 6, i % 2 == 0);
        Set(i, 6, i % 2 == 0);
      }
      SameRegion(size, m, f, modules, isFunction, TimingBefore(size, size), Timing(), TimingDark());
    }

    method DrawFormatBits(mask: nat)
      requires Valid() && size >= 21
      modifies this
      ensures Valid()
      ensures Draws(size, old(modules), old(isFunction), modules, isFunction,
                    InFormat(size), FormatDark(size, FormatBits(mask)))
    {
      hide FormatBits, Draws, InFormat, FormatDark;
      ghost var m, f := modules, isFunction;
      var bits := FormatRemainder(mask);
      DrawNone(size, m, f, FormatBefore(size, 0, 0), FormatDark(size, bits));
      DrawFirstCopy(bits, m, f);
      DrawSecondCopy(bits, m, f);
    }

    method DrawFirstCopy(bits: nat, ghost m: Matrix, ghost f: Matrix)
      requires Valid() && size >= 21
      requires Draws(size, m, f, modules, isFunction, FormatBefore(size, 0, 0), FormatDark(size, bits))
      modifies this
      ensures Valid()
      ensures Draws(size, m, f, modules, isFunction, FormatBefore(size, 15, 0), FormatDark(size, bits))
    {
      hide IsSquare, Draws, FormatBefore, FormatDark;
      for i := 0 to 6
        invariant Valid() && Draws(size, m, f, modules, isFunction, FormatBefore(size, i, 0), FormatDark(size, bits))
      {
        SetFormat(bits, i, i, 8, m, f);
      }
      SetFormat(bits, 6, 7, 8, m, f);
      SetFormat(bits, 7, 8, 8, m, f);
      SetFormat(bits, 8, 8, 7, m, f);
      for i := 9 to 15
        invariant Valid() && Draws(size, m, f, modules, isFunction, FormatBefore(size, i, 0), FormatDark(size, bits))
      {
        SetFormat(bits, i, 8, 14 - i, m, f);
      }
    }

    /** Bit i of the first copy. */
    method SetFormat(bits: nat, i: nat, r: nat, c: nat, ghost m: Matrix, ghost f: Matrix)
      requires Valid() && size >= 21 && r <= 8 && c <= 8 && Index1(r, c) == i
      requires Draws(size, m, f, modules, isFunction, FormatBefore(size, i, 0), FormatDark(size, bits))
      modifies this
      ensures Valid()
      ensures Draws(size, m, f, modules, isFunction, FormatBefore(size, i + 1, 0), FormatDark(size, bits))
    {
      hide Cell, IsSquare, Put, Draws, Bit, FormatDark, Index1;
      FormatPlace(size, bits, i, r, c);
      DrawOne(size, m, f, modules, isFunction, FormatBefore(size, i, 0), FormatBefore(size, i + 1, 0), FormatDark(size, bits),
              r, c, Bit(bits, i));
      Set(r, c, Bit(bits, i));
    }

    method DrawSecondCopy(bits: nat, ghost m: Matrix, ghost f: Matrix)
      requires Valid() && size >= 21
      requires Draws(size, m, f, modules, isFunction, FormatBefore(size, 15, 0), FormatDark(size, bits))
      modifies this
      ensures Valid()
      ensures Draws(size, m, f, modules, isFunction, InFormat(size), FormatDark(size, bits))
    {
      hide Cell, IsSquare, Put, Draws, Bit, FormatBits;
      ghost var value := FormatDark(size, bits);
      for i := 0 to 8
        invariant Valid() && Draws(size, m, f, modules, isFunction, FormatBefore(size, 15, i), value)
      {
        DrawOne(size, m, f, modules, isFunction, FormatBefore(size, 15, i), FormatBefore(size, 15, i + 1), value,
                8, size - 1 - i, Bit(bits, i));
        Set(8, size - 1 - i, Bit(bits, i));
      }
      for i := 8 to 15
        invariant Valid() && Draws(size, m, f, modules, isFunction, FormatBefore(size, 15, i), value)
      {
        DrawOne(size, m, f, modules, isFunction, FormatBefore(size, 15, i), FormatBefore(size, 15, i + 1), value,
                size - 15 + i, 8, Bit(bits, i));
        Set(size - 15 + i, 8, Bit(bits, i));
      }
      DrawOne(size, m, f, modules, isFunction, FormatBefore(size, 15, 15), InFormat(size), value, size - 8, 8, true);
      Set(size - 8, 8, true);
    }

    method DrawVersionBits(v: nat)
      requires Valid() && size == Size(v)
      modifies this
      ensures Valid()
      ensures v < 7 ==> modules == old(modules) && isFunction == old(isFunction)
      ensures v >= 7 ==> Draws(size, old(modules), old(isFunction), modules, isFunction,
                               VersionBefore(size, 18, 18), VersionDark(size, v))
    {
      hide Cell, IsSquare, Put, Draws, Bit, VersionWord;
      ghost var m, f := modules, isFunction;
      if v < 7 {
        return;
      }
      var bits := VersionRemainder(v);
      ghost var value := VersionDark(size, v);
      DrawNone(size, m, f, VersionBefore(size, 0, 0), value);
      for i := 0 to 18
        invariant Valid() && Draws(size, m, f, modules, isFunction, VersionBefore(size, i, i), value)
      {
        var dark := Bit(bits, i);
        var a, b := size - 11 + i % 3, i / 3;
        DrawOne(size, m, f, modules, isFunction, VersionBefore(size, i, i), VersionBefore(size, i + 1, i), value, a, b, dark);
        Set(a, b, dark);
        DrawOne(size, m, f, modules, isFunction, VersionBefore(size, i + 1, i), VersionBefore(size, i + 1, i + 1), value, b, a, dark);
        Set(b, a, dark);
      }
    }

    /** One pattern for every pair of centres that is not on a finder. */
    method DrawAlignments(v: nat)
      requires Valid() && 1 <= v <= 10 && size == Size(v)
      modifies this
      ensures Valid()
      ensures Aligns(size, v, |EncoderAlign(v)|, 0, old(modules), old(isFunction), modules, isFunction)
    {
      hide EncoderAlign, Aligns, IsSquare, Draws, OnFinder;
      ghost var m, f := modules, isFunction;
      var centers := EncoderAlign(v);
      AlignsNone(size, v, m, f);
      for a := 0 to |centers|
        invariant Valid() && Aligns(size, v, a, 0, m, f, modules, isFunction)
      {
        for b := 0 to |centers|
          invariant Valid() && Aligns(size, v, a, b, m, f, modules, isFunction)
        {
          ghost var m0, f0 := modules, isFunction;
          var cy, cx := centers[a], centers[b];
          SkippedIsOnFinder(v, a, b);
          SkippedIsOnFinder(v, b, a);
          if !Skipped(size, cy, cx) {
            DrawAlignment(cy, cx);
          }
          AlignsStep(size, v, a, b, m, f, m0, f0, modules, isFunction);
        }
        AlignsNextRow(size, v, a, m, f, modules, isFunction);
      }
    }

    /** Everything but the data: exactly the modules the decoder skips are marked. */
    method DrawFunctionPatterns(v: nat)
      requires Valid() && 1 <= v <= 10 && size == Size(v)
      requires forall r, c :: !Cell(modules, r, c) && !Cell(isFunction, r, c)
      modifies this
      ensures Valid()
      ensures FunctionsMarked(v, isFunction)
      ensures PatternsShown(v, modules) && DataLight(v, modules)
    {
      hide *;
      SizeLarge(v);
      ghost var m0, f0 := modules, isFunction;
      DrawTiming();
      ghost var m1, f1 := modules, isFunction;
      DrawFinder(3, 3);
      ghost var m2, f2 := modules, isFunction;
      DrawFinder(3, size - 4);
      ghost var m3, f3 := modules, isFunction;
      DrawFinder(size - 4, 3);
      ghost var m4, f4 := modules, isFunction;
      DrawAlignments(v);
      ghost var m5, f5 := modules, isFunction;
      DrawFormatBits(0);
      ghost var m6, f6 := modules, isFunction;
      DrawVersionBits(v);
      PatternsMark(v, m0, f0, m1, f1, m2, f2, m3, f3, m4, f4, m5, f5, m6, f6, modules, isFunction);
    }
  }

  /** Marked are exactly the modules the decoder skips. */
  ghost predicate FunctionsMarked(v: nat, f: Matrix)
    requires 1 <= v <= 40
  {
    forall r: nat, c: nat {:trigger Cell(f, r, c)} :: r < Size(v) && c < Size(v) ==> Cell(f, r, c) == Reserved(v, r, c)
  }

  ghost predicate DataLight(v: nat, m: Matrix)
    requires 1 <= v <= 40
  {
    forall r: nat, c: nat {:trigger Cell(m, r, c)} :: r < Size(v) && c < Size(v) && !Reserved(v, r, c) ==> !Cell(m, r, c)
  }

  /** The three finder patterns with their separators. */
  ghost predicate FindersShown(size: nat, m: Matrix) {
    forall r: nat, c: nat {:trigger Cell(m, r, c)} :: r < size && c < size ==>
      && (Within(3, 3, 4)(r, c) ==> Cell(m, r, c) == FinderDark(3, 3)(r, c))
      && (Within(3, size - 4, 4)(r, c) ==> Cell(m, r, c) == FinderDark(3, size - 4)(r, c))
      && (Within(size - 4, 3, 4)(r, c) ==> Cell(m, r, c) == FinderDark(size - 4, 3)(r, c))
  }

  /** A module of the two timing lines between the finders. */
  predicate OnTimingLine(size: nat, r: nat, c: nat) {
    (r == 6 && 8 <= c < size - 8) || (c == 6 && 8 <= r < size - 8)
  }

  predicate InVersionBlock(v: nat, r: nat, c: nat) {
    v >= 7 && VersionBefore(Size(v), 18, 18)(r, c)
  }

  /** All function patterns but the format word: finders, alignment patterns, version blocks, timing lines, the dark
      module. */
  ghost predicate PatternsShown(v: nat, m: Matrix) {
    FindersShown(Size(v), m) && Cell(m, Size(v) - 8, 8) && OthersShown(v, m)
  }

  ghost predicate OthersShown(v: nat, m: Matrix) {
    forall r: nat, c: nat {:trigger PatternShown(v, m, r, c)} :: r < Size(v) && c < Size(v) ==> PatternShown(v, m, r, c)
  }

  predicate PatternShown(v: nat, m: Matrix, r: nat, c: nat) {
    && (GridCapacity.InAlignment(v, r, c) ==> Cell(m, r, c) == AlignmentsDark(v)(r, c))
    && (InVersionBlock(v, r, c) ==> Cell(m, r, c) == VersionDark(Size(v), v)(r, c))
    && (OnTimingLine(Size(v), r, c) ==> Cell(m, r, c) == TimingDark()(r, c))
  }

  /** These modules are function modules, and none shows the format word. */
  lemma PatternApart(v: nat, r: nat, c: nat)
    requires 1 <= v <= 10 && r < Size(v) && c < Size(v)
    requires GridCapacity.InAlignment(v, r, c) || InVersionBlock(v, r, c) || OnTimingLine(Size(v), r, c)
    ensures Reserved(v, r, c) && !InFormat(Size(v))(r, c)
    ensures !Within(3, 3, 4)(r, c) && !Within(3, Size(v) - 4, 4)(r, c) && !Within(Size(v) - 4, 3, 4)(r, c)
    ensures InVersionBlock(v, r, c) ==> !GridCapacity.InAlignment(v, r, c) && !OnTimingLine(Size(v), r, c)
  {
    hide EncoderAlign, Reserved;
    GridCapacity.ReservedSame(v, r, c);
  }

  lemma TimingDarkIs(r: nat, c: nat)
    ensures TimingDark()(r, c) == ((if r == 6 then c else r) % 2 == 0)
  {
  }

  lemma AlignmentsDarkIs(v: nat, r: nat, c: nat)
    ensures AlignmentsDark(v)(r, c) == (Ring(Line(v, r), Line(v, c), r, c) != 1)
  {
  }

  /** The middle line crosses the timing line at an even place. */
  lemma CrossingParity(middle: nat, i: nat)
    requires middle % 2 == 0 && Near(middle, i)
    ensures Ring(6, middle, 6, i) == Ring(middle, 6, i, 6) == Abs(i - middle)
    ensures Abs(i - middle) != 1 <==> i % 2 == 0
  {
  }

  /** Where a timing line crosses an alignment pattern both have one colour. */
  lemma CrossingsAgree(v: nat, r: nat, c: nat)
    requires 1 <= v <= 10 && GridCapacity.InAlignment(v, r, c) && OnTimingLine(Size(v), r, c)
    ensures AlignmentsDark(v)(r, c) == TimingDark()(r, c)
  {
    hide Ring, AlignmentsDark, TimingDark, Abs;
    var middle := GridCapacity.Middle(v);
    TimingDarkIs(r, c);
    AlignmentsDarkIs(v, r, c);
    if r == 6 {
      assert v >= 7 && Near(middle, c);
      assert Line(v, r) == 6 && Line(v, c) == middle;
      CrossingParity(middle, c);
    } else {
      assert v >= 7 && Near(middle, r);
      assert Line(v, c) == 6 && Line(v, r) == middle;
      CrossingParity(middle, r);
    }
  }

  lemma DrawnPattern(v: nat, m: seq<Matrix>, f: seq<Matrix>, r: nat, c: nat)
    requires 1 <= v <= 10 && |m| == |f| == 8 && Drawn(v, m, f) && r < Size(v) && c < Size(v)
    ensures PatternShown(v, m[7], r, c)
  {
    hide EncoderAlign, Cell, TimingDark, FinderDark, FormatDark, VersionDark, FormatBits, CoveredBefore, AlignmentsDark;
    hide Within, InFormat, OnTimingLine, GridCapacity.InAlignment;
    var n, apat := Size(v), EncoderAlign(v);
    GridCapacity.AlignedSame(v, r, c);
    CoveredStep(apat, |apat|, 0, r, c);
    if GridCapacity.InAlignment(v, r, c) || InVersionBlock(v, r, c) || OnTimingLine(n, r, c) {
      PatternApart(v, r, c);
      assert Cell(m[6], r, c) == Cell(m[5], r, c);
      assert !InVersionBlock(v, r, c) ==> Cell(m[7], r, c) == Cell(m[6], r, c);
      if OnTimingLine(n, r, c) {
        TimingLineIs(n, r, c);
        assert Cell(m[4], r, c) == Cell(m[3], r, c) == Cell(m[2], r, c) == Cell(m[1], r, c) == TimingDark()(r, c);
        if GridCapacity.InAlignment(v, r, c) {
          CrossingsAgree(v, r, c);
        }
      }
    }
  }

  lemma TimingLineIs(n: nat, r: nat, c: nat)
    requires OnTimingLine(n, r, c)
    ensures Timing()(r, c)
  {
  }

  lemma DarkModule(v: nat, m: seq<Matrix>, f: seq<Matrix>)
    requires 1 <= v <= 10 && |m| == |f| == 8 && Drawn(v, m, f)
    ensures Cell(m[7], Size(v) - 8, 8)
  {
    hide EncoderAlign, Cell, FormatBits, Aligns, VersionDark;
    var n := Size(v);
    var r: nat, c: nat := n - 8, 8;
    assert InFormat(n)(r, c) && FormatDark(n, FormatBits(0))(r, c);
    assert Cell(m[6], r, c) == FormatDark(n, FormatBits(0))(r, c);
    assert !VersionBefore(n, 18, 18)(r, c);
    assert Cell(m[7], r, c) == Cell(m[6], r, c);
  }

  lemma PatternsDrawn(v: nat, m: seq<Matrix>, f: seq<Matrix>)
    requires 1 <= v <= 10 && |m| == |f| == 8 && Drawn(v, m, f)
    ensures PatternsShown(v, m[7])
  {
    hide Cell, Drawn, PatternShown, FindersShown;
    FindersDrawn(v, m, f);
    DarkModule(v, m, f);
    forall r: nat, c: nat | r < Size(v) && c < Size(v) ensures PatternShown(v, m[7], r, c) {
      DrawnPattern(v, m, f, r, c);
    }
  }

  /** The seven drawing steps, state by state. */
  ghost predicate Drawn(v: nat, m: seq<Matrix>, f: seq<Matrix>)
    requires 1 <= v <= 10 && |m| == |f| == 8
  {
    var n := Size(v);
    && (forall r, c :: !Cell(m[0], r, c) && !Cell(f[0], r, c))
    && Draws(n, m[0], f[0], m[1], f[1], Timing(), TimingDark())
    && Draws(n, m[1], f[1], m[2], f[2], Within(3, 3, 4), FinderDark(3, 3))
    && Draws(n, m[2], f[2], m[3], f[3], Within(3, n - 4, 4), FinderDark(3, n - 4))
    && Draws(n, m[3], f[3], m[4], f[4], Within(n - 4, 3, 4), FinderDark(n - 4, 3))
    && Aligns(n, v, |EncoderAlign(v)|, 0, m[4], f[4], m[5], f[5])
    && Draws(n, m[5], f[5], m[6], f[6], InFormat(n), FormatDark(n, FormatBits(0)))
    && (if v < 7 then m[7] == m[6] && f[7] == f[6]
        else Draws(n, m[6], f[6], m[7], f[7], VersionBefore(n, 18, 18), VersionDark(n, v)))
  }

  /** One module through the steps. */
  lemma DrawnCell(v: nat, m: seq<Matrix>, f: seq<Matrix>, r: nat, c: nat)
    requires 1 <= v <= 10 && |m| == |f| == 8 && Drawn(v, m, f) && r < Size(v) && c < Size(v)
    ensures Cell(f[7], r, c) == Reserved(v, r, c)
    ensures !Reserved(v, r, c) ==> !Cell(m[7], r, c)
  {
    hide EncoderAlign, Cell, TimingDark, FinderDark, FormatDark, VersionDark, FormatBits, Reserved, Aligned, CoveredBefore;
    var n, apat := Size(v), EncoderAlign(v);
    GridCapacity.ReservedSame(v, r, c);
    GridCapacity.AlignedSame(v, r, c);
    CoveredStep(apat, |apat|, 0, r, c);
    assert Cell(f[1], r, c) == Timing()(r, c);
    assert Cell(f[4], r, c) == (Cell(f[1], r, c) || Within(3, 3, 4)(r, c) || Within(3, n - 4, 4)(r, c) || Within(n - 4, 3, 4)(r, c));
    assert Cell(f[5], r, c) == (Cell(f[4], r, c) || GridCapacity.InAlignment(v, r, c));
    assert Cell(f[6], r, c) == (Cell(f[5], r, c) || InFormat(n)(r, c));
  }

  lemma DrawnFinder(v: nat, m: seq<Matrix>, f: seq<Matrix>, r: nat, c: nat)
    requires 1 <= v <= 10 && |m| == |f| == 8 && Drawn(v, m, f) && r < Size(v) && c < Size(v)
    ensures Within(3, 3, 4)(r, c) ==> Cell(m[7], r, c) == FinderDark(3, 3)(r, c)
    ensures Within(3, Size(v) - 4, 4)(r, c) ==> Cell(m[7], r, c) == FinderDark(3, Size(v) - 4)(r, c)
    ensures Within(Size(v) - 4, 3, 4)(r, c) ==> Cell(m[7], r, c) == FinderDark(Size(v) - 4, 3)(r, c)
  {
    hide EncoderAlign, Cell, TimingDark, FinderDark, FormatDark, VersionDark, FormatBits, Reserved, Aligned, CoveredBefore;
    var n, apat := Size(v), EncoderAlign(v);
    GridCapacity.AlignedSame(v, r, c);
    CoveredStep(apat, |apat|, 0, r, c);
    if Within(3, 3, 4)(r, c) || Within(3, n - 4, 4)(r, c) || Within(n - 4, 3, 4)(r, c) {
      assert Cell(m[5], r, c) == Cell(m[4], r, c);
      assert Cell(m[6], r, c) == Cell(m[5], r, c);
      assert Cell(m[7], r, c) == Cell(m[6], r, c);
    }
  }

  lemma SizeLarge(v: nat)
    requires v >= 1
    ensures Size(v) >= 21
  {
  }

  lemma PatternsMark(v: nat, m0: Matrix, f0: Matrix, m1: Matrix, f1: Matrix, m2: Matrix, f2: Matrix, m3: Matrix, f3: Matrix,
                     m4: Matrix, f4: Matrix, m5: Matrix, f5: Matrix, m6: Matrix, f6: Matrix, m7: Matrix, f7: Matrix)
    requires 1 <= v <= 10 && forall r, c :: !Cell(m0, r, c) && !Cell(f0, r, c)
    requires Draws(Size(v), m0, f0, m1, f1, Timing(), TimingDark())
    requires Draws(Size(v), m1, f1, m2, f2, Within(3, 3, 4), FinderDark(3, 3))
    requires Draws(Size(v), m2, f2, m3, f3, Within(3, Size(v) - 4, 4), FinderDark(3, Size(v) - 4))
    requires Draws(Size(v), m3, f3, m4, f4, Within(Size(v) - 4, 3, 4), FinderDark(Size(v) - 4, 3))
    requires Aligns(Size(v), v, |EncoderAlign(v)|, 0, m4, f4, m5, f5)
    requires Draws(Size(v), m5, f5, m6, f6, InFormat(Size(v)), FormatDark(Size(v), FormatBits(0)))
    requires v < 7 ==> m7 == m6 && f7 == f6
    requires v >= 7 ==> Draws(Size(v), m6, f6, m7, f7, VersionBefore(Size(v), 18, 18), VersionDark(Size(v), v))
    ensures FunctionsMarked(v, f7) && PatternsShown(v, m7) && DataLight(v, m7)
  {
    hide Cell, Draws, Aligns, FunctionsMarked, PatternsShown, DataLight, EncoderAlign;
    hide Within, FinderDark, InFormat, FormatDark, FormatBits, VersionBefore, VersionDark, Timing, TimingDark;
    CellsMarked(v, [m0, m1, m2, m3, m4, m5, m6, m7], [f0, f1, f2, f3, f4, f5, f6, f7]);
  }

  lemma CellsMarked(v: nat, m: seq<Matrix>, f: seq<Matrix>)
    requires 1 <= v <= 10 && |m| == |f| == 8 && Drawn(v, m, f)
    ensures FunctionsMarked(v, f[7]) && PatternsShown(v, m[7]) && DataLight(v, m[7])
  {
    hide Cell, Drawn, Reserved, Within, FinderDark, PatternsShown;
    forall r: nat, c: nat | r < Size(v) && c < Size(v)
      ensures Cell(f[7], r, c) == Reserved(v, r, c) && (!Reserved(v, r, c) ==> !Cell(m[7], r, c))
    {
      DrawnCell(v, m, f, r, c);
    }
    PatternsDrawn(v, m, f);
  }

  lemma FindersDrawn(v: nat, m: seq<Matrix>, f: seq<Matrix>)
    requires 1 <= v <= 10 && |m| == |f| == 8 && Drawn(v, m, f)
    ensures FindersShown(Size(v), m[7])
  {
    hide Cell, Drawn, Within, FinderDark;
    forall r: nat, c: nat | r < Size(v) && c < Size(v)
      ensures Within(3, 3, 4)(r, c) ==> Cell(m[7], r, c) == FinderDark(3, 3)(r, c)
      ensures Within(3, Size(v) - 4, 4)(r, c) ==> Cell(m[7], r, c) == FinderDark(3, Size(v) - 4)(r, c)
      ensures Within(Size(v) - 4, 3, 4)(r, c) ==> Cell(m[7], r, c) == FinderDark(Size(v) - 4, 3)(r, c)
    {
      DrawnFinder(v, m, f, r, c);
    }
  }
}
