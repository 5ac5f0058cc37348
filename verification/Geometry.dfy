/** Where a QR symbol keeps its function patterns, and the zigzag order in which the other modules carry data. */
module Geometry {
  import opened Versions

  function Size(v: nat): nat {
    4 * v + 17
  }

  // ---- function modules -----------------------------------------------------------------------------------------------

  predicate Near(p: nat, i: nat) {
    p - 3 < i < p + 3
  }

  /** Centre (a, b) would fall on a finder pattern. */
  predicate OnFinder(n: nat, a: nat, b: nat) {
    (a == 0 && b == 0) || (a == 0 && b + 1 == n) || (a + 1 == n && b == 0)
  }

  /** The alignment pattern with centre (apat[a], apat[b]) exists and covers the module. */
  predicate Covers(apat: seq<nat>, a: nat, b: nat, r: nat, c: nat) {
    a < |apat| && b < |apat| && !OnFinder(|apat|, a, b) && Near(apat[a], r) && Near(apat[b], c)
  }

  ghost predicate Aligned(apat: seq<nat>, r: nat, c: nat) {
    exists a: nat, b: nat :: Covers(apat, a, b, r, c)
  }

  /** Finder patterns with their separators and the format modules next to them. */
  predicate InCorner(size: nat, r: nat, c: nat) {
    (r < 9 && c < 9) || (r + 8 >= size && c < 9) || (r < 9 && c + 8 >= size)
  }

  predicate InVersionInfo(v: nat, r: nat, c: nat) {
    v >= 7 && ((r < 6 && c + 11 >= Size(v)) || (r + 11 >= Size(v) && c < 6))
  }

  ghost predicate Reserved(v: nat, r: nat, c: nat)
    requires 1 <= v <= 40
  {
    || InCorner(Size(v), r, c)
    || r == 6 || c == 6
    || InVersionInfo(v, r, c)
    || Aligned(VersionDb(v).apat, r, c)
  }

  // ---- the decoder's test ----------------------------------------------------------------------------------------------

  /** Alignment coordinates lie too far apart for a row to be near two of them. */
  ghost predicate Spaced(apat: seq<nat>) {
    |apat| != 1 && forall a, b :: 0 <= a < b < |apat| ==> apat[a] + 5 <= apat[b]
  }

  /** The same for consecutive coordinates. */
  ghost predicate Steps(apat: seq<nat>) {
    |apat| != 1 && forall a :: 0 <= a < |apat| - 1 ==> apat[a] + 5 <= apat[a + 1]
  }

  lemma {:induction false} StepsSpaced(apat: seq<nat>, a: nat, b: nat)
    requires Steps(apat) && a < b < |apat|
    ensures apat[a] + 5 <= apat[b]
  {
    if a + 1 < b {
      StepsSpaced(apat, a, b - 1);
    }
  }

  lemma Steps4(v: nat)
    requires 1 <= v <= 4
    ensures Steps(VersionDb4(v).apat)
  {
    hide InfoOk;
  }

  lemma Steps7(v: nat)
    requires 5 <= v <= 7
    ensures Steps(VersionDb7(v).apat)
  {
    hide InfoOk;
  }

  lemma Steps10(v: nat)
    requires 8 <= v <= 10
    ensures Steps(VersionDb10(v).apat)
  {
    hide InfoOk;
  }

  lemma Steps12(v: nat)
    requires 11 <= v <= 12
    ensures Steps(VersionDb12(v).apat)
  {
    hide InfoOk;
  }

  lemma Steps15(v: nat)
    requires 13 <= v <= 15
    ensures Steps(VersionDb15(v).apat)
  {
    hide InfoOk;
  }

  lemma Steps17(v: nat)
    requires 16 <= v <= 17
    ensures Steps(VersionDb17(v).apat)
  {
    hide InfoOk;
  }

  lemma Steps20(v: nat)
    requires 18 <= v <= 20
    ensures Steps(VersionDb20(v).apat)
  {
    hide InfoOk;
  }

  lemma Steps22(v: nat)
    requires 21 <= v <= 22
    ensures Steps(VersionDb22(v).apat)
  {
    hide InfoOk;
  }

  lemma Steps25(v: nat)
    requires 23 <= v <= 25
    ensures Steps(VersionDb25(v).apat)
  {
    hide InfoOk;
  }

  lemma Steps27(v: nat)
    requires 26 <= v <= 27
    ensures Steps(VersionDb27(v).apat)
  {
    hide InfoOk;
  }

  lemma Steps30(v: nat)
    requires 28 <= v <= 30
    ensures Steps(VersionDb30(v).apat)
  {
    hide InfoOk;
  }

  lemma Steps32(v: nat)
    requires 31 <= v <= 32
    ensures Steps(VersionDb32(v).apat)
  {
    hide InfoOk;
  }

  lemma Steps35(v: nat)
    requires 33 <= v <= 35
    ensures Steps(VersionDb35(v).apat)
  {
    hide InfoOk;
  }

  lemma Steps37(v: nat)
    requires 36 <= v <= 37
    ensures Steps(VersionDb37(v).apat)
  {
    hide InfoOk;
  }

  lemma Steps40(v: nat)
    requires 38 <= v <= 40
    ensures Steps(VersionDb40(v).apat)
  {
    hide InfoOk;
  }

  lemma SpacedDb(v: nat)
    requires 1 <= v <= 40
    ensures Spaced(VersionDb(v).apat)
  {
    hide InfoOk, VersionDb4, VersionDb7, VersionDb10, VersionDb12, VersionDb15, VersionDb17, VersionDb20, VersionDb22,
      VersionDb25, VersionDb27, VersionDb30, VersionDb32, VersionDb35, VersionDb37, VersionDb40, Steps;
    var apat := VersionDb(v).apat;
    if v <= 4 {
      Steps4(v);
    } else if v <= 7 {
      Steps7(v);
    } else if v <= 10 {
      Steps10(v);
    } else if v <= 12 {
      Steps12(v);
    } else if v <= 15 {
      Steps15(v);
    } else if v <= 17 {
      Steps17(v);
    } else if v <= 20 {
      Steps20(v);
    } else if v <= 22 {
      Steps22(v);
    } else if v <= 25 {
      Steps25(v);
    } else if v <= 27 {
      Steps27(v);
    } else if v <= 30 {
      Steps30(v);
    } else if v <= 32 {
      Steps32(v);
    } else if v <= 35 {
      Steps35(v);
    } else if v <= 37 {
      Steps37(v);
    } else {
      Steps40(v);
    }
    StepsLength(apat);
    forall a, b | 0 <= a < b < |apat| ensures apat[a] + 5 <= apat[b] {
      StepsSpaced(apat, a, b);
    }
  }

  lemma StepsLength(apat: seq<nat>)
    requires Steps(apat)
    ensures |apat| != 1
  {
  }

  lemma NearOne(apat: seq<nat>, a: nat, b: nat, i: nat)
    requires Spaced(apat) && a < |apat| && b < |apat| && Near(apat[a], i) && Near(apat[b], i)
    ensures a == b
  {
  }

  /** The last coordinate near i, or -1. */
  method NearestLine(apat: seq<nat>, i: nat) returns (ai: int)
    ensures -1 <= ai < |apat|
    ensures ai >= 0 ==> Near(apat[ai], i)
    ensures ai < 0 ==> forall a: nat :: a < |apat| ==> !Near(apat[a], i)
  {
    ai := -1;
    for a := 0 to |apat|
      invariant -1 <= ai < a
      invariant ai >= 0 ==> Near(apat[ai], i)
      invariant ai < 0 ==> forall b: nat :: b < a ==> !Near(apat[b], i)
    {
      var d := apat[a] - i;
      if (if d < 0 then -d else d) < 3 {
        ai := a;
      }
    }
  }

  method ReservedCell(v: nat, i: nat, j: nat) returns (reserved: bool)
    requires 1 <= v <= 40
    ensures reserved == Reserved(v, i, j)
  {
    hide VersionDb, InfoOk;
    var apat := VersionDb(v).apat;
    var size := v * 4 + 17;
    if i < 9 && j < 9 {
      return true;
    }
    if i + 8 >= size && j < 9 {
      return true;
    }
    if i < 9 && j + 8 >= size {
      return true;
    }
    if i == 6 || j == 6 {
      return true;
    }
    if v >= 7 {
      if i < 6 && j + 11 >= size {
        return true;
      }
      if i + 11 >= size && j < 6 {
        return true;
      }
    }
    SpacedDb(v);
    var ai := NearestLine(apat, i);
    var aj := NearestLine(apat, j);
    if ai >= 0 && aj >= 0 {
      OnlyCover(apat, ai, aj, i, j);
      var a := |apat| - 1;
      if 0 < ai < a {
        return true;
      }
      if 0 < aj < a {
        return true;
      }
      if aj == a && ai == a {
        return true;
      }
    }
    return false;
  }

  lemma OnlyCover(apat: seq<nat>, a: nat, b: nat, i: nat, j: nat)
    requires Spaced(apat) && a < |apat| && b < |apat| && Near(apat[a], i) && Near(apat[b], j)
    ensures Aligned(apat, i, j) <==> !OnFinder(|apat|, a, b)
  {
    if Aligned(apat, i, j) {
      var a': nat, b': nat :| Covers(apat, a', b', i, j);
      NearOne(apat, a, a', i);
      NearOne(apat, b, b', j);
    } else {
      assert !Covers(apat, a, b, i, j);
    }
  }

  // ---- the zigzag -------------------------------------------------------------------------------------------------------

  /** The number of column pairs; column 6 belongs to none. */
  function Pairs(v: nat): nat {
    2 * v + 8
  }

  /** The right column of pair k, counted from the right edge. */
  function Right(v: nat, k: nat): (c: nat)
    requires k < Pairs(v)
    ensures 1 <= c < Size(v) && c != 6 && c != 7
  {
    if 2 * k + 8 < Size(v) then Size(v) - 1 - 2 * k else Size(v) - 2 - 2 * k
  }

  /** Step t of pair k: two modules a row, upwards in even pairs and downwards in odd ones. */
  function Row(v: nat, k: nat, t: nat): (r: nat)
    requires t < 2 * Size(v)
    ensures r < Size(v)
  {
    if k % 2 == 0 then Size(v) - 1 - t / 2 else t / 2
  }

  function Col(v: nat, k: nat, t: nat): (c: nat)
    requires k < Pairs(v)
    ensures c < Size(v) && c != 6
  {
    Right(v, k) - t % 2
  }

  /** No module is visited twice. */
  lemma PathInjective(v: nat, k: nat, t: nat, k': nat, t': nat)
    requires k < Pairs(v) && k' < Pairs(v) && t < 2 * Size(v) && t' < 2 * Size(v)
    requires Row(v, k, t) == Row(v, k', t') && Col(v, k, t) == Col(v, k', t')
    ensures k == k' && t == t'
  {
  }

  /** Every module outside column 6 is visited. */
  lemma PathCovers(v: nat, r: nat, c: nat) returns (k: nat, t: nat)
    requires r < Size(v) && c < Size(v) && c != 6
    ensures k < Pairs(v) && t < 2 * Size(v) && Row(v, k, t) == r && Col(v, k, t) == c
  {
    var x := if c > 6 then Size(v) - 1 - c else Size(v) - 2 - c;
    k := x / 2;
    t := 2 * (if k % 2 == 0 then Size(v) - 1 - r else r) + x % 2;
  }

  ghost predicate Free(v: nat, k: nat, t: nat)
    requires 1 <= v <= 40 && k < Pairs(v) && t < 2 * Size(v)
  {
    !Reserved(v, Row(v, k, t), Col(v, k, t))
  }

  /** Data modules among the first t steps of pair k. */
  ghost function FreeIn(v: nat, k: nat, t: nat): (n: nat)
    requires 1 <= v <= 40 && k < Pairs(v) && t <= 2 * Size(v)
    ensures n <= t
  {
    if t == 0 then 0 else FreeIn(v, k, t - 1) + if Free(v, k, t - 1) then 1 else 0
  }

  /** Data modules in the first k pairs. */
  ghost function FreeUpTo(v: nat, k: nat): (n: nat)
    requires 1 <= v <= 40 && k <= Pairs(v)
    ensures n <= 354 * k
  {
    if k == 0 then 0 else FreeUpTo(v, k - 1) + FreeIn(v, k - 1, 2 * Size(v))
  }

  /** The place in the bit stream of step t of pair k. */
  ghost function Pos(v: nat, k: nat, t: nat): (n: nat)
    requires 1 <= v <= 40 && k < Pairs(v) && t <= 2 * Size(v)
    ensures n <= 354 * (k + 1)
  {
    FreeUpTo(v, k) + FreeIn(v, k, t)
  }

  lemma PosStep(v: nat, k: nat, t: nat)
    requires 1 <= v <= 40 && k < Pairs(v) && t < 2 * Size(v)
    ensures Pos(v, k, t + 1) == Pos(v, k, t) + if Free(v, k, t) then 1 else 0
  {
  }

  lemma PosNextPair(v: nat, k: nat)
    requires 1 <= v <= 40 && k < Pairs(v)
    ensures Pos(v, k, 2 * Size(v)) == FreeUpTo(v, k + 1)
    ensures k + 1 < Pairs(v) ==> Pos(v, k + 1, 0) == FreeUpTo(v, k + 1)
  {
  }
}
