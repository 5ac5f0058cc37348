/** The data modules of versions 1 to 10 are counted column by column: the stream of an interleaved symbol fits. */
module GridCapacity {
  import opened Versions
  import opened Geometry

  // ---- function modules of the encoder's versions, without the search for a centre ------------------------------------

  /** The middle and the last alignment coordinate. */
  function Middle(v: nat): nat { 2 * v + 8 }

  function Last(v: nat): nat { 4 * v + 10 }

  predicate InAlignment(v: nat, r: nat, c: nat) {
    || (v >= 2 && Near(Last(v), r) && Near(Last(v), c))
    || (v >= 7 && Near(Middle(v), r) && (Near(6, c) || Near(Middle(v), c) || Near(Last(v), c)))
    || (v >= 7 && Near(Middle(v), c) && (Near(6, r) || Near(Last(v), r)))
  }

  predicate Function(v: nat, r: nat, c: nat) {
    InCorner(Size(v), r, c) || r == 6 || c == 6 || InVersionInfo(v, r, c) || InAlignment(v, r, c)
  }

  lemma AlignLines(v: nat)
    requires 1 <= v <= 10
    ensures EncoderAlign(v) == if v == 1 then [] else if v < 7 then [6, Last(v)] else [6, Middle(v), Last(v)]
  {
  }

  lemma AlignedSame(v: nat, r: nat, c: nat)
    requires 1 <= v <= 10
    ensures Aligned(EncoderAlign(v), r, c) <==> InAlignment(v, r, c)
  {
    hide EncoderAlign;
    AlignLines(v);
    var apat := EncoderAlign(v);
    if InAlignment(v, r, c) {
      var a := if v < 7 then 1 else if Near(Middle(v), r) then 1 else if Near(Last(v), r) then 2 else 0;
      var b := if v < 7 then 1 else if Near(Middle(v), c) then 1 else if Near(Last(v), c) then 2 else 0;
      assert Covers(apat, a, b, r, c);
    }
  }

  lemma ReservedSame(v: nat, r: nat, c: nat)
    requires 1 <= v <= 10
    ensures Reserved(v, r, c) <==> Function(v, r, c)
  {
    hide EncoderAlign, Aligned, InAlignment, VersionDb, EncoderEc, DataCodewords;
    TablesAgree(v);
    AlignedSame(v, r, c);
  }

  // ---- data modules of a column ------------------------------------------------------------------------------------------

  /** Data modules in the first n rows of a column. */
  function ColFree(v: nat, c: nat, n: nat): nat {
    if n == 0 then 0 else ColFree(v, c, n - 1) + if Function(v, n - 1, c) then 0 else 1
  }

  /** Rows a to b are all data or all function modules. */
  lemma {:induction false} Rows(v: nat, c: nat, a: nat, b: nat, free: bool)
    requires a <= b && forall r: nat :: a <= r < b ==> Function(v, r, c) == !free
    ensures ColFree(v, c, b) == ColFree(v, c, a) + if free then b - a else 0
  {
    hide Function;
    if a < b {
      Rows(v, c, a, b - 1, free);
      assert Function(v, b - 1, c) == !free;
    }
  }

  /** Data modules of a whole column. */
  function Count(v: nat, c: nat): int {
    var m := Middle(v);
    if c == 6 then 0
    else if v == 1 then if c < 9 then 4 else if c < 13 then 20 else 12
    else if v < 7 then
      if c < 9 then 4 * v
      else if c < Size(v) - 9 then 4 * v + 16
      else if c == Size(v) - 9 then 4 * v + 11
      else if c < Size(v) - 4 then 4 * v + 3
      else 4 * v + 8
    else if c < 4 then 4 * v - 3
    else if c < 6 then 4 * v - 8
    else if c < 9 then 4 * v - 5
    else if m - 2 <= c <= m + 2 then 4 * v + 2
    else if c < Size(v) - 11 then 4 * v + 16
    else if c < Size(v) - 9 then 4 * v + 10
    else if c == Size(v) - 9 then 4 * v
    else if c < Size(v) - 4 then 4 * v - 2
    else 4 * v + 8
  }

  lemma NoRows(v: nat, c: nat)
    ensures ColFree(v, c, 0) == 0
  {
  }

  lemma Column1(c: nat)
    requires c < 21 && c != 6
    ensures ColFree(1, c, 21) == Count(1, c)
  {
    hide ColFree;
    NoRows(1, c);
    if c < 9 {
      Rows(1, c, 0, 9, false);
      Rows(1, c, 9, 13, true);
      Rows(1, c, 13, 21, false);
    } else if c < 13 {
      Rows(1, c, 0, 6, true);
      Rows(1, c, 6, 7, false);
      Rows(1, c, 7, 21, true);
    } else {
      Rows(1, c, 0, 9, false);
      Rows(1, c, 9, 21, true);
    }
  }

  lemma SmallLeft(v: nat, c: nat)
    requires 2 <= v <= 6 && c < 9 && c != 6
    ensures ColFree(v, c, Size(v)) == Count(v, c)
  {
    hide ColFree;
    var s := Size(v);
    NoRows(v, c);
    Rows(v, c, 0, 9, false);
    Rows(v, c, 9, s - 8, true);
    Rows(v, c, s - 8, s, false);
  }

  lemma SmallMiddle(v: nat, c: nat)
    requires 2 <= v <= 6 && 9 <= c < Size(v) - 9
    ensures ColFree(v, c, Size(v)) == Count(v, c)
  {
    hide ColFree;
    var s := Size(v);
    NoRows(v, c);
    Rows(v, c, 0, 6, true);
    Rows(v, c, 6, 7, false);
    Rows(v, c, 7, s, true);
  }

  lemma SmallEdge(v: nat, c: nat)
    requires 2 <= v <= 6 && c == Size(v) - 9
    ensures ColFree(v, c, Size(v)) == Count(v, c)
  {
    hide ColFree;
    var s := Size(v);
    NoRows(v, c);
    Rows(v, c, 0, 6, true);
    Rows(v, c, 6, 7, false);
    Rows(v, c, 7, s - 9, true);
    Rows(v, c, s - 9, s - 4, false);
    Rows(v, c, s - 4, s, true);
  }

  lemma SmallAligned(v: nat, c: nat)
    requires 2 <= v <= 6 && Size(v) - 8 <= c < Size(v) - 4
    ensures ColFree(v, c, Size(v)) == Count(v, c)
  {
    hide ColFree;
    var s := Size(v);
    NoRows(v, c);
    Rows(v, c, 0, 9, false);
    Rows(v, c, 9, s - 9, true);
    Rows(v, c, s - 9, s - 4, false);
    Rows(v, c, s - 4, s, true);
  }

  lemma SmallRight(v: nat, c: nat)
    requires 2 <= v <= 6 && Size(v) - 4 <= c < Size(v)
    ensures ColFree(v, c, Size(v)) == Count(v, c)
  {
    hide ColFree;
    var s := Size(v);
    NoRows(v, c);
    Rows(v, c, 0, 9, false);
    Rows(v, c, 9, s, true);
  }

  lemma LargeLeft(v: nat, c: nat)
    requires 7 <= v <= 10 && c < 4
    ensures ColFree(v, c, Size(v)) == Count(v, c)
  {
    hide ColFree;
    var s := Size(v);
    NoRows(v, c);
    Rows(v, c, 0, 9, false);
    Rows(v, c, 9, s - 11, true);
    Rows(v, c, s - 11, s, false);
  }

  lemma LargeBesideTiming(v: nat, c: nat)
    requires 7 <= v <= 10 && 4 <= c < 6
    ensures ColFree(v, c, Size(v)) == Count(v, c)
  {
    hide ColFree;
    var s, m := Size(v), Middle(v);
    NoRows(v, c);
    Rows(v, c, 0, 9, false);
    Rows(v, c, 9, m - 2, true);
    Rows(v, c, m - 2, m + 3, false);
    Rows(v, c, m + 3, s - 11, true);
    Rows(v, c, s - 11, s, false);
  }

  lemma LargePastTiming(v: nat, c: nat)
    requires 7 <= v <= 10 && 7 <= c < 9
    ensures ColFree(v, c, Size(v)) == Count(v, c)
  {
    hide ColFree;
    var s, m := Size(v), Middle(v);
    NoRows(v, c);
    Rows(v, c, 0, 9, false);
    Rows(v, c, 9, m - 2, true);
    Rows(v, c, m - 2, m + 3, false);
    Rows(v, c, m + 3, s - 8, true);
    Rows(v, c, s - 8, s, false);
  }

  lemma LargePlain(v: nat, c: nat)
    requires 7 <= v <= 10 && 9 <= c < Size(v) - 11 && !Near(Middle(v), c)
    ensures ColFree(v, c, Size(v)) == Count(v, c)
  {
    hide ColFree;
    var s := Size(v);
    NoRows(v, c);
    Rows(v, c, 0, 6, true);
    Rows(v, c, 6, 7, false);
    Rows(v, c, 7, s, true);
  }

  lemma LargeAligned(v: nat, c: nat)
    requires 7 <= v <= 10 && Near(Middle(v), c)
    ensures ColFree(v, c, Size(v)) == Count(v, c)
  {
    hide ColFree;
    var s, m := Size(v), Middle(v);
    NoRows(v, c);
    Rows(v, c, 0, 4, true);
    Rows(v, c, 4, 9, false);
    Rows(v, c, 9, m - 2, true);
    Rows(v, c, m - 2, m + 3, false);
    Rows(v, c, m + 3, s - 9, true);
    Rows(v, c, s - 9, s - 4, false);
    Rows(v, c, s - 4, s, true);
  }

  lemma LargeVersion(v: nat, c: nat)
    requires 7 <= v <= 10 && Size(v) - 11 <= c < Size(v) - 9
    ensures ColFree(v, c, Size(v)) == Count(v, c)
  {
    hide ColFree;
    var s := Size(v);
    NoRows(v, c);
    Rows(v, c, 0, 7, false);
    Rows(v, c, 7, s, true);
  }

  lemma LargeEdge(v: nat, c: nat)
    requires 7 <= v <= 10 && c == Size(v) - 9
    ensures ColFree(v, c, Size(v)) == Count(v, c)
  {
    hide ColFree;
    var s, m := Size(v), Middle(v);
    NoRows(v, c);
    Rows(v, c, 0, 7, false);
    Rows(v, c, 7, m - 2, true);
    Rows(v, c, m - 2, m + 3, false);
    Rows(v, c, m + 3, s - 9, true);
    Rows(v, c, s - 9, s - 4, false);
    Rows(v, c, s - 4, s, true);
  }

  lemma LargeBelowFinder(v: nat, c: nat)
    requires 7 <= v <= 10 && Size(v) - 8 <= c < Size(v) - 4
    ensures ColFree(v, c, Size(v)) == Count(v, c)
  {
    hide ColFree;
    var s, m := Size(v), Middle(v);
    NoRows(v, c);
    Rows(v, c, 0, 9, false);
    Rows(v, c, 9, m - 2, true);
    Rows(v, c, m - 2, m + 3, false);
    Rows(v, c, m + 3, s - 9, true);
    Rows(v, c, s - 9, s - 4, false);
    Rows(v, c, s - 4, s, true);
  }

  lemma LargeRight(v: nat, c: nat)
    requires 7 <= v <= 10 && Size(v) - 4 <= c < Size(v)
    ensures ColFree(v, c, Size(v)) == Count(v, c)
  {
    hide ColFree;
    var s := Size(v);
    NoRows(v, c);
    Rows(v, c, 0, 9, false);
    Rows(v, c, 9, s, true);
  }

  /** The number of data modules of every column. */
  lemma ColumnCount(v: nat, c: nat)
    requires 1 <= v <= 10 && c < Size(v) && c != 6
    ensures ColFree(v, c, Size(v)) == Count(v, c)
  {
    hide ColFree, Count, Function;
    if v == 1 {
      Column1(c);
    } else if v <= 6 {
      if c < 9 { SmallLeft(v, c); }
      else if c < Size(v) - 9 { SmallMiddle(v, c); }
      else if c == Size(v) - 9 { SmallEdge(v, c); }
      else if c < Size(v) - 4 { SmallAligned(v, c); }
      else { SmallRight(v, c); }
    } else {
      if c < 4 { LargeLeft(v, c); }
      else if c < 6 { LargeBesideTiming(v, c); }
      else if c < 9 { LargePastTiming(v, c); }
      else if Near(Middle(v), c) { LargeAligned(v, c); }
      else if c < Size(v) - 11 { LargePlain(v, c); }
      else if c < Size(v) - 9 { LargeVersion(v, c); }
      else if c == Size(v) - 9 { LargeEdge(v, c); }
      else if c < Size(v) - 4 { LargeBelowFinder(v, c); }
      else { LargeRight(v, c); }
    }
  }

  // ---- from columns to pairs ------------------------------------------------------------------------------------------------

  lemma FreeSame(v: nat, k: nat, t: nat)
    requires 1 <= v <= 10 && k < Pairs(v) && t < 2 * Size(v)
    ensures Free(v, k, t) <==> !Function(v, Row(v, k, t), Col(v, k, t))
  {
    hide Reserved, Function;
    ReservedSame(v, Row(v, k, t), Col(v, k, t));
  }

  /** Two steps of a pair take one row of both columns. */
  lemma TwoSteps(v: nat, k: nat, i: nat)
    requires 1 <= v <= 10 && k < Pairs(v) && i < Size(v)
    ensures var r := if k % 2 == 0 then Size(v) - 1 - i else i;
      FreeIn(v, k, 2 * i + 2) == FreeIn(v, k, 2 * i)
        + (if Function(v, r, Right(v, k)) then 0 else 1) + (if Function(v, r, Right(v, k) - 1) then 0 else 1)
  {
    hide Function, Free;
    FreeSame(v, k, 2 * i);
    FreeSame(v, k, 2 * i + 1);
    assert FreeIn(v, k, 2 * i + 2) == FreeIn(v, k, 2 * i + 1) + if Free(v, k, 2 * i + 1) then 1 else 0;
    assert (2 * i) / 2 == i && (2 * i + 1) / 2 == i;
  }

  lemma {:induction false} PairColumns(v: nat, k: nat, i: nat)
    requires 1 <= v <= 10 && k < Pairs(v) && i <= Size(v)
    ensures var a, b := Right(v, k), Right(v, k) - 1; var s := Size(v);
      if k % 2 == 0 then
        FreeIn(v, k, 2 * i) + ColFree(v, a, s - i) + ColFree(v, b, s - i) == ColFree(v, a, s) + ColFree(v, b, s)
      else
        FreeIn(v, k, 2 * i) == ColFree(v, a, i) + ColFree(v, b, i)
  {
    hide Function, Free, Right, FreeIn;
    if i > 0 {
      PairColumns(v, k, i - 1);
      TwoSteps(v, k, i - 1);
      assert 2 * (i - 1) + 2 == 2 * i;
    } else {
      NoSteps(v, k);
    }
  }

  lemma NoSteps(v: nat, k: nat)
    requires 1 <= v <= 10 && k < Pairs(v)
    ensures FreeIn(v, k, 0) == 0
  {
  }

  lemma PairCount(v: nat, k: nat)
    requires 1 <= v <= 10 && k < Pairs(v)
    ensures FreeIn(v, k, 2 * Size(v)) == Count(v, Right(v, k)) + Count(v, Right(v, k) - 1)
  {
    hide ColFree, Function, Count, FreeIn;
    PairColumns(v, k, Size(v));
    NoRows(v, Right(v, k));
    NoRows(v, Right(v, k) - 1);
    ColumnCount(v, Right(v, k));
    ColumnCount(v, Right(v, k) - 1);
  }

  // ---- the total ------------------------------------------------------------------------------------------------------------

  /** Pairs i to j hold w data modules each. */
  lemma {:induction false} Run(v: nat, i: nat, j: nat, w: int)
    requires 1 <= v <= 10 && i <= j <= Pairs(v)
    requires forall k: nat :: i <= k < j ==> Count(v, Right(v, k)) + Count(v, Right(v, k) - 1) == w
    ensures FreeUpTo(v, j) == FreeUpTo(v, i) + (j - i) * w
  {
    hide FreeIn, Right, Count;
    if i < j {
      Run(v, i, j - 1, w);
      PairCount(v, j - 1);
      OneMore(j - 1 - i, w);
      hide *;
    }
  }

  lemma OneMore(n: nat, w: int)
    ensures (n + 1) * w == n * w + w
  {
  }

  lemma Start(v: nat)
    requires 1 <= v <= 10
    ensures FreeUpTo(v, 0) == 0
  {
  }

  lemma TotalOne()
    ensures FreeUpTo(1, 10) == 208
  {
    hide FreeUpTo;
    Start(1);
    Run(1, 0, 4, 24);
    Run(1, 4, 6, 40);
    Run(1, 6, 10, 8);
  }

  lemma TotalSmall(v: nat)
    requires 2 <= v <= 6
    ensures FreeUpTo(v, Pairs(v)) == 72 * v + 71 + (2 * v - 1) * (8 * v + 32)
  {
    hide FreeUpTo;
    Start(v);
    Run(v, 0, 2, 8 * v + 16);
    Run(v, 2, 4, 8 * v + 6);
    Run(v, 4, 5, 8 * v + 27);
    Run(v, 5, 2 * v + 4, 8 * v + 32);
    Run(v, 2 * v + 4, 2 * v + 8, 8 * v);
  }

  lemma TotalLargeRight(v: nat)
    requires 7 <= v <= 10
    ensures FreeUpTo(v, 6) == 48 * v + 60
  {
    hide FreeUpTo;
    Start(v);
    Run(v, 0, 2, 8 * v + 16);
    Run(v, 2, 4, 8 * v - 4);
    Run(v, 4, 5, 8 * v + 10);
    Run(v, 5, 6, 8 * v + 26);
  }

  lemma AddTimes(a: nat, b: nat, w: int)
    ensures a * w + b * w == (a + b) * w
  {
  }

  lemma TotalLargeMiddle(v: nat)
    requires 7 <= v <= 10
    ensures FreeUpTo(v, 2 * v + 4) == FreeUpTo(v, 6) + 24 * v + 26 + (2 * v - 5) * (8 * v + 32)
  {
    hide FreeUpTo;
    Run(v, 6, v + 3, 8 * v + 32);
    Run(v, v + 3, v + 5, 8 * v + 4);
    Run(v, v + 5, v + 6, 8 * v + 18);
    Run(v, v + 6, 2 * v + 4, 8 * v + 32);
    AddTimes(v - 3, v - 2, 8 * v + 32);
  }

  lemma TotalLarge(v: nat)
    requires 7 <= v <= 10
    ensures FreeUpTo(v, Pairs(v)) == 104 * v + 48 + (2 * v - 5) * (8 * v + 32)
  {
    hide FreeUpTo;
    TotalLargeRight(v);
    TotalLargeMiddle(v);
    Run(v, 2 * v + 4, 2 * v + 5, 8 * v - 10);
    Run(v, 2 * v + 5, 2 * v + 6, 8 * v - 16);
    Run(v, 2 * v + 6, 2 * v + 8, 8 * v - 6);
  }

  /** The data modules hold exactly the symbol's codewords and at most seven remainder bits. */
  lemma CodewordsFit(v: nat)
    requires 1 <= v <= 10
    ensures FreeUpTo(v, Pairs(v)) == 8 * VersionDb(v).dataBytes + if 2 <= v <= 6 then 7 else 0
  {
    hide FreeUpTo, InfoOk;
    if v == 1 {
      TotalOne();
    } else if v <= 6 {
      TotalSmall(v);
    } else {
      TotalLarge(v);
    }
  }
}
