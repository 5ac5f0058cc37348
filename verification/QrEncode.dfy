/** The encoder: zigzag placement, masking, the choice of the version and of the mask. */
module QrEncode {
  import Bits
  import opened BitStream
  import Tables
  import opened RsEncode
  import opened Versions
  import opened Codestream
  import opened Payload
  import opened Format
  import opened Geometry
  import GridCapacity
  import opened Grid

  // ---- data placement -------------------------------------------------------------------------------------------------

  /** Bit i of the stream; the remainder bits after it are light. */
  function Wanted(data: seq<nat>, i: nat): bool {
    i < 8 * |data| && StreamBit(data, i)
  }

  predicate Earlier(k': nat, t': nat, k: nat, t: nat) {
    k' < k || (k' == k && t' < t)
  }

  /** Data modules before step t of pair k show the stream, later ones are light. */
  ghost predicate Filled(v: nat, data: seq<nat>, m: Matrix, k: nat, t: nat)
    requires 1 <= v <= 40
  {
    forall k': nat, t': nat {:trigger Free(v, k', t')} :: k' < Pairs(v) && t' < 2 * Size(v) && Free(v, k', t') ==>
      Cell(m, Row(v, k', t'), Col(v, k', t')) == (Earlier(k', t', k, t) && Wanted(data, Pos(v, k', t')))
  }

  /** No function module differs. */
  ghost predicate Kept(v: nat, m: Matrix, m': Matrix)
    requires 1 <= v <= 40
  {
    forall r: nat, c: nat {:trigger Reserved(v, r, c)} :: r < Size(v) && c < Size(v) && Reserved(v, r, c) ==>
      Cell(m', r, c) == Cell(m, r, c)
  }

  lemma FillStep(v: nat, data: seq<nat>, m: Matrix, m': Matrix, k: nat, t: nat)
    requires 1 <= v <= 40 && k < Pairs(v) && t < 2 * Size(v) && IsSquare(m, Size(v)) && Filled(v, data, m, k, t)
    requires m' == if Free(v, k, t) && Pos(v, k, t) < 8 * |data|
                   then Put(m, Row(v, k, t), Col(v, k, t), Wanted(data, Pos(v, k, t))) else m
    ensures Filled(v, data, m', k, t + 1) && IsSquare(m', Size(v)) && Kept(v, m, m')
  {
    hide Cell, Put, IsSquare, Free, Pos, Row, Col;
    var r, c, dark := Row(v, k, t), Col(v, k, t), Wanted(data, Pos(v, k, t));
    PutCell(m, Size(v), r, c, dark);
    FreeIs(v, k, t);
    forall k': nat, t': nat | k' < Pairs(v) && t' < 2 * Size(v) && Free(v, k', t')
      ensures Cell(m', Row(v, k', t'), Col(v, k', t')) == (Earlier(k', t', k, t + 1) && Wanted(data, Pos(v, k', t')))
    {
      if Row(v, k', t') == r && Col(v, k', t') == c {
        PathInjective(v, k, t, k', t');
      }
    }
  }

  lemma FreeIs(v: nat, k: nat, t: nat)
    requires 1 <= v <= 40 && k < Pairs(v) && t < 2 * Size(v)
    ensures Free(v, k, t) == !Reserved(v, Row(v, k, t), Col(v, k, t))
  {
  }

  lemma FillNext(v: nat, data: seq<nat>, m: Matrix, k: nat)
    requires 1 <= v <= 40 && Filled(v, data, m, k, 2 * Size(v))
    ensures Filled(v, data, m, k + 1, 0)
  {
    hide Cell, Free, Pos, Row, Col;
  }

  lemma KeptTrans(v: nat, m0: Matrix, m: Matrix, m': Matrix)
    requires 1 <= v <= 40 && Kept(v, m0, m) && Kept(v, m, m')
    ensures Kept(v, m0, m')
  {
    hide Cell, Reserved;
  }

  function Min(a: nat, b: nat): nat { if a < b then a else b }

  /** One module of the zigzag. */
  method PlaceBit(g: Grid, data: seq<nat>, i: nat, row: nat, col: nat, ghost v: nat, ghost k: nat, ghost t: nat)
    returns (next: nat)
    requires 1 <= v <= 40 && k < Pairs(v) && t < 2 * Size(v) && row == Row(v, k, t) && col == Col(v, k, t)
    requires g.Valid() && g.size == Size(v) && FunctionsMarked(v, g.isFunction)
    requires Filled(v, data, g.modules, k, t) && i == Min(Pos(v, k, t), 8 * |data|)
    modifies g`modules
    ensures g.Valid() && Filled(v, data, g.modules, k, t + 1) && next == Min(Pos(v, k, t + 1), 8 * |data|)
    ensures Kept(v, old(g.modules), g.modules)
  {
    hide Filled, Kept, Free, FreeUpTo, Pos, Row, Col, Reserved, Wanted, Pow2;
    FreeIs(v, k, t);
    PosStep(v, k, t);
    assert Cell(g.isFunction, row, col) == Reserved(v, row, col);
    ghost var put := Free(v, k, t) && Pos(v, k, t) < 8 * |data|;
    FillStep(v, data, g.modules, if put then Put(g.modules, row, col, Wanted(data, Pos(v, k, t))) else g.modules, k, t);
    next := i;
    if !g.isFunction[row][col] && i < |data| * 8 {
      ShiftedBit(data, i);
      g.modules := Put(g.modules, row, col, data[i / 8] / Pow2(7 - i % 8) % 2 == 1);
      next := i + 1;
    }
  }

  lemma ShiftedBit(data: seq<nat>, i: nat)
    requires i < 8 * |data|
    ensures i / 8 < |data| && (data[i / 8] / Pow2(7 - i % 8) % 2 == 1) == Wanted(data, i)
  {
    hide StreamBit, BitAt;
    StreamBitIs(data, i);
    ShiftRight(data[i / 8], i % 8);
  }

  lemma ShiftRight(b: nat, k: nat)
    requires k < 8
    ensures b / Pow2(7 - k) % 2 == 1 <==> BitAt(b, k)
  {
    BitsOfAt(b, 8, k);
  }

  lemma StreamBitIs(data: seq<nat>, i: nat)
    requires i < 8 * |data|
    ensures i / 8 < |data| && StreamBit(data, i) == BitAt(data[i / 8], i % 8)
  {
  }

  /** Fills the data modules, column pair by column pair, alternating upwards and downwards. */
  method DrawData(g: Grid, data: seq<nat>, ghost v: nat)
    requires 1 <= v <= 40 && g.Valid() && g.size == Size(v) && FunctionsMarked(v, g.isFunction)
    requires DataLight(v, g.modules)
    modifies g`modules
    ensures g.Valid() && Filled(v, data, g.modules, Pairs(v), 0) && Kept(v, old(g.modules), g.modules)
  {
    hide Filled, Kept, Pos, FunctionsMarked, DataLight, IsSquare, Cell, Right, RightBefore, Size, FreeUpTo;
    ghost var m0 := g.modules;
    NothingFilled(v, data, m0);
    var i: nat := 0;
    var right: int := g.size - 1;
    ghost var k: nat := 0;
    FirstRight(v);
    while right >= 1
      invariant k <= Pairs(v) && g.Valid() && right == RightBefore(v, k)
      invariant Filled(v, data, g.modules, k, 0) && Kept(v, m0, g.modules)
      invariant k < Pairs(v) ==> i == Min(Pos(v, k, 0), 8 * |data|)
      decreases right
    {
      NextRight(v, k);
      if right == 6 {
        right := 5;
      }
      i := DrawPair(g, data, i, right, v, k, m0);
      FillNext(v, data, g.modules, k);
      PosNextPair(v, k);
      k := k + 1;
      right := right - 2;
    }
    LastRight(v, k);
  }

  /** Where the loop stands before it looks for the timing column. */
  function RightBefore(v: nat, k: nat): int {
    if k <= 2 * v + 5 then Size(v) - 1 - 2 * k else Size(v) - 2 - 2 * k
  }

  lemma FirstRight(v: nat)
    ensures RightBefore(v, 0) == Size(v) - 1
  {
  }

  lemma NextRight(v: nat, k: nat)
    requires k <= Pairs(v) && RightBefore(v, k) >= 1
    ensures k < Pairs(v) && Right(v, k) == (if RightBefore(v, k) == 6 then 5 else RightBefore(v, k))
    ensures RightBefore(v, k + 1) == Right(v, k) - 2
  {
  }

  lemma LastRight(v: nat, k: nat)
    requires k <= Pairs(v) && RightBefore(v, k) < 1
    ensures k == Pairs(v)
  {
  }

  lemma NothingFilled(v: nat, data: seq<nat>, m: Matrix)
    requires 1 <= v <= 40 && DataLight(v, m)
    ensures Filled(v, data, m, 0, 0) && Kept(v, m, m) && Pos(v, 0, 0) == 0
  {
    hide Cell, Reserved;
  }

  method DrawPair(g: Grid, data: seq<nat>, start: nat, right: nat, ghost v: nat, ghost k: nat, ghost m0: Matrix) returns (i: nat)
    requires 1 <= v <= 40 && g.Valid() && g.size == Size(v) && FunctionsMarked(v, g.isFunction)
    requires k < Pairs(v) && right == Right(v, k)
    requires Filled(v, data, g.modules, k, 0) && Kept(v, m0, g.modules) && start == Min(Pos(v, k, 0), 8 * |data|)
    modifies g`modules
    ensures g.Valid() && Filled(v, data, g.modules, k, 2 * Size(v)) && Kept(v, m0, g.modules)
    ensures i == Min(Pos(v, k, 2 * Size(v)), 8 * |data|)
  {
    hide Filled, Kept, Pos, FunctionsMarked, Min;
    i := start;
    for vert := 0 to g.size
      invariant g.Valid() && Filled(v, data, g.modules, k, 2 * vert) && Kept(v, m0, g.modules)
      invariant i == Min(Pos(v, k, 2 * vert), 8 * |data|)
    {
      for j := 0 to 2
        invariant g.Valid() && Filled(v, data, g.modules, k, 2 * vert + j) && Kept(v, m0, g.modules)
        invariant i == Min(Pos(v, k, 2 * vert + j), 8 * |data|)
      {
        var col := right - j;
        var upward := (right + 1) / 2 % 2 == 0;
        var row := if upward then g.size - 1 - vert else vert;
        assert (2 * vert + j) / 2 == vert && (2 * vert + j) % 2 == j;
        Upwards(v, k);
        ghost var before := g.modules;
        i := PlaceBit(g, data, i, row, col, v, k, 2 * vert + j);
        KeptTrans(v, m0, before, g.modules);
      }
    }
  }

  lemma Upwards(v: nat, k: nat)
    requires k < Pairs(v)
    ensures (Right(v, k) + 1) / 2 % 2 == 0 <==> k % 2 == 0
  {
  }

  // ---- masks --------------------------------------------------------------------------------------------------------------

  predicate MaskBit(mask: nat, row: nat, col: nat) {
    match mask
    case 0 => (row + col) % 2 == 0
    case 1 => row % 2 == 0
    case 2 => col % 3 == 0
    case 3 => (row + col) % 3 == 0
    case 4 => (row / 2 + col / 3) % 2 == 0
    case 5 => row * col % 2 + row * col % 3 == 0
    case 6 => (row * col % 2 + row * col % 3) % 2 == 0
    case _ => ((row + col) % 2 + row * col % 3) % 2 == 0
  }

  lemma ProductSix(r: nat, c: nat)
    ensures r * c % 2 == (r % 6) * (c % 6) % 2 && r * c % 3 == (r % 6) * (c % 6) % 3
  {
    var a, i, b, j := r / 6, r % 6, c / 6, c % 6;
    SplitProduct(a, i, b, j);
    AddSixes(6 * (a * b) + a * j + b * i, i * j);
  }

  lemma SplitProduct(a: nat, i: nat, b: nat, j: nat)
    ensures (6 * a + i) * (6 * b + j) == 6 * (6 * (a * b) + a * j + b * i) + i * j
  {
    calc {
      (6 * a + i) * (6 * b + j);
      (6 * a) * (6 * b) + (6 * a) * j + i * (6 * b) + i * j;
      6 * (6 * (a * b) + a * j + b * i) + i * j;
    }
  }

  lemma AddSixes(q: nat, x: nat)
    ensures (6 * q + x) % 2 == x % 2 && (6 * q + x) % 3 == x % 3
  {
    Bits.ModUnique(6 * q + x, 2, 3 * q + x / 2, x % 2);
    Bits.ModUnique(6 * q + x, 3, 2 * q + x / 3, x % 3);
  }

  lemma SumSix(r: nat, c: nat)
    ensures (r + c) % 2 == (r % 6 + c % 6) % 2 && (r + c) % 3 == (r % 6 + c % 6) % 3
  {
    AddSixes(r / 6 + c / 6, r % 6 + c % 6);
  }

  lemma HalfThird(r: nat, c: nat)
    ensures (r / 2 + c / 3) % 2 == (r % 4 / 2 + c % 6 / 3) % 2
  {
    assert r / 2 == 2 * (r / 4) + r % 4 / 2;
    assert c / 3 == 2 * (c / 6) + c % 6 / 3;
    assert r / 2 + c / 3 == 2 * (r / 4 + c / 6) + (r % 4 / 2 + c % 6 / 3);
  }

  /** One period of each of the product masks. */
  lemma MaskPeriod(i: nat, j: nat)
    requires i < 6 && j < 6
    ensures i * j % 2 + i * j % 3 == 0 <==> ["######", "#.....", "#..#..", "#.#.#.", "#..#..", "#....."][i][j] == '#'
    ensures (i * j % 2 + i * j % 3) % 2 == 0 <==> ["######", "###...", "##.##.", "#.#.#.", "#.##.#", "#...##"][i][j] == '#'
    ensures ((i + j) % 2 + i * j % 3) % 2 == 0 <==> ["#.#.#.", "...###", "#...##", ".#.#.#", "###...", ".###.."][i][j] == '#'
  {
    assert (i == 0 || i == 1 || i == 2 || i == 3 || i == 4 || i == 5) && (j == 0 || j == 1 || j == 2 || j == 3 || j == 4 || j == 5);
    var p := i * j;
    assert i == 0 ==> p == 0;
    assert i == 1 ==> p == j;
    assert i == 2 ==> p == 2 * j;
    assert i == 3 ==> p == 3 * j;
    assert i == 4 ==> p == 4 * j;
    assert i == 5 ==> p == 5 * j;
  }

  lemma LineMasks(mask: nat, r: nat, c: nat)
    ensures mask == 0 ==> (MaskBit(mask, r, c) <==> r % 2 == c % 2)
    ensures mask == 1 ==> (MaskBit(mask, r, c) <==> r % 2 == 0)
    ensures mask == 2 ==> (MaskBit(mask, r, c) <==> c % 3 == 0)
    ensures mask == 3 ==> (MaskBit(mask, r, c) <==> ["#..", "..#", ".#."][r % 3][c % 3] == '#')
  {
    if mask == 3 {
      SumThree(r, c);
    }
  }

  lemma SumThree(r: nat, c: nat)
    ensures (r + c) % 3 == 0 <==> ["#..", "..#", ".#."][r % 3][c % 3] == '#'
  {
    assert (r + c) % 3 == (r % 3 + c % 3) % 3;
  }

  lemma BlockMask(r: nat, c: nat)
    ensures MaskBit(4, r, c) <==> ["###...", "###...", "...###", "...###"][r % 4][c % 6] == '#'
  {
    HalfThird(r, c);
    assert (r % 4 / 2 + c % 6 / 3) % 2 == 0 <==> (r % 4 < 2 <==> c % 6 < 3);
  }

  lemma ProductMasks(mask: nat, r: nat, c: nat)
    ensures mask == 5 ==> (MaskBit(mask, r, c) <==> ["######", "#.....", "#..#..", "#.#.#.", "#..#..", "#....."][r % 6][c % 6] == '#')
    ensures mask == 6 ==> (MaskBit(mask, r, c) <==> ["######", "###...", "##.##.", "#.#.#.", "#.##.#", "#...##"][r % 6][c % 6] == '#')
    ensures mask == 7 ==> (MaskBit(mask, r, c) <==> ["#.#.#.", "...###", "#...##", ".#.#.#", "###...", ".###.."][r % 6][c % 6] == '#')
  {
    ProductSix(r, c);
    SumSix(r, c);
    MaskPeriod(r % 6, c % 6);
  }

  /** What each number inverts, drawn as one period of the patterns of Table 10 of ISO/IEC 18004:2015. */
  lemma MaskPictures(mask: nat, r: nat, c: nat)
    ensures mask == 0 ==> (MaskBit(mask, r, c) <==> r % 2 == c % 2)
    ensures mask == 1 ==> (MaskBit(mask, r, c) <==> r % 2 == 0)
    ensures mask == 2 ==> (MaskBit(mask, r, c) <==> c % 3 == 0)
    ensures mask == 3 ==> (MaskBit(mask, r, c) <==> ["#..", "..#", ".#."][r % 3][c % 3] == '#')
    ensures mask == 4 ==> (MaskBit(mask, r, c) <==> ["###...", "###...", "...###", "...###"][r % 4][c % 6] == '#')
    ensures mask == 5 ==> (MaskBit(mask, r, c) <==> ["######", "#.....", "#..#..", "#.#.#.", "#..#..", "#....."][r % 6][c % 6] == '#')
    ensures mask == 6 ==> (MaskBit(mask, r, c) <==> ["######", "###...", "##.##.", "#.#.#.", "#.##.#", "#...##"][r % 6][c % 6] == '#')
    ensures mask == 7 ==> (MaskBit(mask, r, c) <==> ["#.#.#.", "...###", "#...##", ".#.#.#", "###...", ".###.."][r % 6][c % 6] == '#')
  {
    hide MaskBit;
    if mask < 4 {
      LineMasks(mask, r, c);
    } else if mask == 4 {
      BlockMask(r, c);
    } else if mask < 8 {
      ProductMasks(mask, r, c);
    }
  }

  predicate Flips(f: Matrix, mask: nat, r: nat, c: nat) {
    !Cell(f, r, c) && MaskBit(mask, r, c)
  }

  ghost predicate Masks(n: nat, f: Matrix, mask: nat, m: Matrix, m': Matrix) {
    forall r: nat, c: nat {:trigger Cell(m', r, c)} :: r < n && c < n ==> Cell(m', r, c) == (Cell(m, r, c) != Flips(f, mask, r, c))
  }

  /** Inverts the data modules the mask selects. */
  method ApplyMask(g: Grid, mask: nat)
    requires g.Valid()
    modifies g`modules
    ensures g.Valid() && Masks(g.size, g.isFunction, mask, old(g.modules), g.modules)
    ensures forall r: nat, c: nat {:trigger Cell(g.modules, r, c)} :: r < g.size && c < g.size ==>
      var inverted, free := Cell(g.modules, r, c) != Cell(old(g.modules), r, c), !Cell(g.isFunction, r, c);
      && (mask == 0 ==> (inverted <==> free && r % 2 == c % 2))
      && (mask == 1 ==> (inverted <==> free && r % 2 == 0))
      && (mask == 2 ==> (inverted <==> free && c % 3 == 0))
      && (mask == 3 ==> (inverted <==> free && ["#..", "..#", ".#."][r % 3][c % 3] == '#'))
      && (mask == 4 ==> (inverted <==> free && ["###...", "###...", "...###", "...###"][r % 4][c % 6] == '#'))
      && (mask == 5 ==> (inverted <==> free && ["######", "#.....", "#..#..", "#.#.#.", "#..#..", "#....."][r % 6][c % 6] == '#'))
      && (mask == 6 ==> (inverted <==> free && ["######", "###...", "##.##.", "#.#.#.", "#.##.#", "#...##"][r % 6][c % 6] == '#'))
      && (mask == 7 ==> (inverted <==> free && ["#.#.#.", "...###", "#...##", ".#.#.#", "###...", ".###.."][r % 6][c % 6] == '#'))
  {
    hide MaskBit;
    ghost var m := g.modules;
    for r := 0 to g.size
      invariant g.Valid()
      invariant forall i: nat, j: nat {:trigger Cell(g.modules, i, j)} :: i < g.size && j < g.size ==>
        Cell(g.modules, i, j) == (Cell(m, i, j) != (i < r && Flips(g.isFunction, mask, i, j)))
    {
      MaskRow(g, mask, r, m);
    }
    MaskedPicture(g.size, g.isFunction, mask, m, g.modules);
  }

  method MaskRow(g: Grid, mask: nat, r: nat, ghost m: Matrix)
    requires g.Valid() && r < g.size
    requires forall i: nat, j: nat {:trigger Cell(g.modules, i, j)} :: i < g.size && j < g.size ==>
      Cell(g.modules, i, j) == (Cell(m, i, j) != (i < r && Flips(g.isFunction, mask, i, j)))
    modifies g`modules
    ensures g.Valid()
    ensures forall i: nat, j: nat {:trigger Cell(g.modules, i, j)} :: i < g.size && j < g.size ==>
      Cell(g.modules, i, j) == (Cell(m, i, j) != (i < r + 1 && Flips(g.isFunction, mask, i, j)))
  {
    hide MaskBit, Cell, Put, IsSquare, Flips;
    for c := 0 to g.size
      invariant g.Valid()
      invariant forall i: nat, j: nat {:trigger Cell(g.modules, i, j)} :: i < g.size && j < g.size ==>
        Cell(g.modules, i, j) == (Cell(m, i, j) != ((i < r || (i == r && j < c)) && Flips(g.isFunction, mask, i, j)))
    {
      CellIs(g.modules, g.size, r, c);
      CellIs(g.isFunction, g.size, r, c);
      FlipsIs(g.isFunction, mask, r, c);
      if !g.isFunction[r][c] && MaskBit(mask, r, c) {
        PutCell(g.modules, g.size, r, c, !g.modules[r][c]);
        g.modules := Put(g.modules, r, c, !g.modules[r][c]);
      }
    }
  }

  lemma MaskedPicture(n: nat, f: Matrix, mask: nat, m: Matrix, m': Matrix)
    requires Masks(n, f, mask, m, m')
    ensures forall r: nat, c: nat {:trigger Cell(m', r, c)} :: r < n && c < n ==>
      var inverted, free := Cell(m', r, c) != Cell(m, r, c), !Cell(f, r, c);
      && (mask == 0 ==> (inverted <==> free && r % 2 == c % 2))
      && (mask == 1 ==> (inverted <==> free && r % 2 == 0))
      && (mask == 2 ==> (inverted <==> free && c % 3 == 0))
      && (mask == 3 ==> (inverted <==> free && ["#..", "..#", ".#."][r % 3][c % 3] == '#'))
      && (mask == 4 ==> (inverted <==> free && ["###...", "###...", "...###", "...###"][r % 4][c % 6] == '#'))
      && (mask == 5 ==> (inverted <==> free && ["######", "#.....", "#..#..", "#.#.#.", "#..#..", "#....."][r % 6][c % 6] == '#'))
      && (mask == 6 ==> (inverted <==> free && ["######", "###...", "##.##.", "#.#.#.", "#.##.#", "#...##"][r % 6][c % 6] == '#'))
      && (mask == 7 ==> (inverted <==> free && ["#.#.#.", "...###", "#...##", ".#.#.#", "###...", ".###.."][r % 6][c % 6] == '#'))
  {
    hide Cell, Flips, MaskBit;
    forall r: nat, c: nat | r < n && c < n
      ensures var inverted, free := Cell(m', r, c) != Cell(m, r, c), !Cell(f, r, c);
        && (mask == 0 ==> (inverted <==> free && r % 2 == c % 2))
        && (mask == 1 ==> (inverted <==> free && r % 2 == 0))
        && (mask == 2 ==> (inverted <==> free && c % 3 == 0))
        && (mask == 3 ==> (inverted <==> free && ["#..", "..#", ".#."][r % 3][c % 3] == '#'))
        && (mask == 4 ==> (inverted <==> free && ["###...", "###...", "...###", "...###"][r % 4][c % 6] == '#'))
        && (mask == 5 ==> (inverted <==> free && ["######", "#.....", "#..#..", "#.#.#.", "#..#..", "#....."][r % 6][c % 6] == '#'))
        && (mask == 6 ==> (inverted <==> free && ["######", "###...", "##.##.", "#.#.#.", "#.##.#", "#...##"][r % 6][c % 6] == '#'))
        && (mask == 7 ==> (inverted <==> free && ["#.#.#.", "...###", "#...##", ".#.#.#", "###...", ".###.."][r % 6][c % 6] == '#'))
    {
      FlipsIs(f, mask, r, c);
      MaskPictures(mask, r, c);
    }
  }

  lemma CellIs(m: Matrix, n: nat, r: nat, c: nat)
    requires IsSquare(m, n) && r < n && c < n
    ensures r < |m| && c < |m[r]| && Cell(m, r, c) == m[r][c]
  {
  }

  lemma FlipsIs(f: Matrix, mask: nat, r: nat, c: nat)
    ensures Flips(f, mask, r, c) == (!Cell(f, r, c) && MaskBit(mask, r, c))
  {
  }

  lemma SameCells(n: nat, m: Matrix, m': Matrix)
    requires IsSquare(m, n) && IsSquare(m', n)
    requires forall r: nat, c: nat :: r < n && c < n ==> Cell(m, r, c) == Cell(m', r, c)
    ensures m == m'
  {
    forall r | 0 <= r < n ensures m[r] == m'[r] {
      forall c | 0 <= c < n ensures m[r][c] == m'[r][c] {
        assert Cell(m, r, c) == Cell(m', r, c);
      }
    }
  }

  /** Masking twice changes nothing. */
  lemma MaskTwice(n: nat, f: Matrix, mask: nat, m: Matrix, m': Matrix, m'': Matrix)
    requires IsSquare(m, n) && IsSquare(m'', n) && Masks(n, f, mask, m, m') && Masks(n, f, mask, m', m'')
    ensures m'' == m
  {
    hide Cell, Flips, IsSquare;
    forall r: nat, c: nat | r < n && c < n ensures Cell(m, r, c) == Cell(m'', r, c) {
      assert Cell(m', r, c) == (Cell(m, r, c) != Flips(f, mask, r, c));
    }
    SameCells(n, m, m'');
  }

  /** The symbol under a mask: data inverted where the mask says so, the format word drawn. */
  function CandidateCell(n: nat, base: Matrix, f: Matrix, mask: nat, r: nat, c: nat): bool {
    if InFormat(n)(r, c) then FormatDark(n, FormatBits(mask))(r, c) else Cell(base, r, c) != Flips(f, mask, r, c)
  }

  function Candidate(n: nat, base: Matrix, f: Matrix, mask: nat): (m: Matrix)
    ensures IsSquare(m, n)
    ensures forall r: nat, c: nat {:trigger Cell(m, r, c)} :: r < n && c < n ==> Cell(m, r, c) == CandidateCell(n, base, f, mask, r, c)
  {
    seq(n, r requires 0 <= r < n => seq(n, c requires 0 <= c < n => CandidateCell(n, base, f, mask, r, c)))
  }

  /** Nothing but format modules differs, and those are marked. */
  ghost predicate Reformatted(n: nat, f: Matrix, m: Matrix, m': Matrix) {
    forall r: nat, c: nat {:trigger Cell(m', r, c)} :: r < n && c < n && !InFormat(n)(r, c) ==> Cell(m', r, c) == Cell(m, r, c)
  }

  ghost predicate FormatMarked(n: nat, f: Matrix) {
    forall r: nat, c: nat {:trigger Cell(f, r, c)} :: r < n && c < n && InFormat(n)(r, c) ==> Cell(f, r, c)
  }

  lemma FormatIsMarked(v: nat, f: Matrix)
    requires 1 <= v <= 40 && FunctionsMarked(v, f)
    ensures FormatMarked(Size(v), f)
  {
    hide Cell, Aligned;
  }

  /** Masking and drawing the format word gives the candidate, whatever format word was there before. */
  method Dress(g: Grid, mask: nat, ghost base: Matrix)
    requires g.Valid() && g.size >= 21 && FormatMarked(g.size, g.isFunction) && Reformatted(g.size, g.isFunction, base, g.modules)
    modifies g
    ensures g.Valid() && g.isFunction == old(g.isFunction)
    ensures g.modules == Candidate(g.size, base, g.isFunction, mask)
  {
    hide Cell, IsSquare, InFormat, FormatDark, FormatBits, Flips, Candidate;
    ghost var n, f, m0 := g.size, g.isFunction, g.modules;
    ApplyMask(g, mask);
    ghost var m1 := g.modules;
    g.DrawFormatBits(mask);
    DressedFunctions(n, f, m1, g.modules, g.isFunction, mask);
    Dressed(n, f, base, m0, m1, g.modules, g.isFunction, mask);
  }

  lemma DressedFunctions(n: nat, f: Matrix, m1: Matrix, m2: Matrix, f2: Matrix, mask: nat)
    requires IsSquare(f, n) && IsSquare(f2, n) && FormatMarked(n, f)
    requires Draws(n, m1, f, m2, f2, InFormat(n), FormatDark(n, FormatBits(mask)))
    ensures f2 == f
  {
    hide Cell, IsSquare, InFormat, FormatDark, FormatBits;
    SameCells(n, f, f2);
  }

  lemma Dressed(n: nat, f: Matrix, base: Matrix, m0: Matrix, m1: Matrix, m2: Matrix, f2: Matrix, mask: nat)
    requires IsSquare(m2, n) && Reformatted(n, f, base, m0) && Masks(n, f, mask, m0, m1)
    requires Draws(n, m1, f, m2, f2, InFormat(n), FormatDark(n, FormatBits(mask)))
    ensures m2 == Candidate(n, base, f, mask)
  {
    hide Cell, IsSquare, InFormat, FormatDark, FormatBits, Flips, Candidate;
    var w := Candidate(n, base, f, mask);
    forall r: nat, c: nat | r < n && c < n ensures Cell(m2, r, c) == Cell(w, r, c) {
      assert Cell(w, r, c) == CandidateCell(n, base, f, mask, r, c);
      if !InFormat(n)(r, c) {
        assert Cell(m2, r, c) == Cell(m1, r, c);
        assert Cell(m1, r, c) == (Cell(m0, r, c) != Flips(f, mask, r, c));
        assert Cell(m0, r, c) == Cell(base, r, c);
      }
    }
    SameCells(n, m2, w);
  }

  /** Undoing the mask leaves only the format modules different from the base. */
  lemma Undone(n: nat, f: Matrix, base: Matrix, mask: nat, m: Matrix)
    requires FormatMarked(n, f) && Masks(n, f, mask, Candidate(n, base, f, mask), m)
    ensures Reformatted(n, f, base, m)
  {
    hide Cell, IsSquare, InFormat, FormatDark, FormatBits, Flips, Candidate;
    forall r: nat, c: nat | r < n && c < n && !InFormat(n)(r, c) ensures Cell(m, r, c) == Cell(base, r, c) {
      assert Cell(Candidate(n, base, f, mask), r, c) == CandidateCell(n, base, f, mask, r, c);
    }
  }

  /** Tries the eight masks and keeps the first with the lowest score; any score function will do. */
  method ChooseMask(g: Grid, penalty: Matrix -> int) returns (best: nat)
    requires g.Valid() && g.size >= 21 && FormatMarked(g.size, g.isFunction)
    modifies g
    ensures g.Valid() && g.isFunction == old(g.isFunction) && best < 8
    ensures g.modules == Candidate(g.size, old(g.modules), g.isFunction, best)
    ensures LowestFirst(g.size, old(g.modules), g.isFunction, penalty, best, 8)
  {
    hide Cell, IsSquare, InFormat, FormatDark, FormatBits, Flips, Candidate, Masks, Reformatted, FormatMarked;
    ghost var n, f, base := g.size, g.isFunction, g.modules;
    SelfReformatted(n, f, base);
    best := 8;
    var bestScore := 0;
    for mask := 0 to 8
      invariant g.Valid() && g.isFunction == f && Reformatted(n, f, base, g.modules)
      invariant mask == 0 ==> best == 8
      invariant mask > 0 ==>
        best < mask && bestScore == penalty(Candidate(n, base, f, best)) && LowestFirst(n, base, f, penalty, best, mask)
    {
      Dress(g, mask, base);
      var s := penalty(g.modules);
      if best == 8 || s < bestScore {
        bestScore := s;
        best := mask;
      }
      ApplyMask(g, mask);
      Undone(n, f, base, mask, g.modules);
    }
    Dress(g, best, base);
  }

  lemma SelfReformatted(n: nat, f: Matrix, m: Matrix)
    ensures Reformatted(n, f, m, m)
  {
  }

  ghost predicate LowestFirst(n: nat, base: Matrix, f: Matrix, penalty: Matrix -> int, best: nat, tried: nat) {
    forall k: nat {:trigger Candidate(n, base, f, k)} :: k < tried ==>
      var p, q := penalty(Candidate(n, base, f, best)), penalty(Candidate(n, base, f, k));
      if k < best then p < q else p <= q
  }

  // ---- the whole encoder --------------------------------------------------------------------------------------------------

  datatype Symbol = TooLong | Symbol(size: nat, modules: Matrix, version: nat, mask: nat)

  /** The data modules show the stream under the mask, the format modules both copies of the format word. */
  ghost predicate Shows(v: nat, m: Matrix, mask: nat, sent: seq<nat>)
    requires 1 <= v <= 40
  {
    && IsSquare(m, Size(v))
    && (forall k: nat, t: nat {:trigger Free(v, k, t)} :: k < Pairs(v) && t < 2 * Size(v) && Free(v, k, t) ==>
          Cell(m, Row(v, k, t), Col(v, k, t)) == (Wanted(sent, Pos(v, k, t)) != MaskBit(mask, Row(v, k, t), Col(v, k, t))))
    && (forall i: nat :: i < 15 ==> Cell(m, Row1(i), Col1(i)) == Bit(FormatBits(mask), i))
    && (forall i: nat :: i < 15 ==> Cell(m, Row2(Size(v), i), Col2(Size(v), i)) == Bit(FormatBits(mask), i))
  }

  /** The blocks are codewords of level L whose data parts are the payload's segment and the padding. */
  ghost predicate Blocks(v: nat, payload: seq<nat>, data: seq<seq<nat>>, ecc: seq<seq<nat>>)
    requires 1 <= v <= 10
  {
    var info := VersionDb(v);
    var p := info.ecc[LEVEL_L];
    && Shape(p, data, ecc) && |data| == p.ns + LongBlocks(info.dataBytes, p)
    && AllInField(Tables.Gf256(), data) && AllInField(Tables.Gf256(), ecc)
    && AllCodewords(data, ecc, EcLen(p))
    && |Flat(data)| == DataCodewords(v) && Carries(Flat(data), payload, v)
    && PadsFrom(Flat(data), |SegmentBits(payload, v)| / 8)
  }

  ghost predicate Smallest(n: nat, v: nat) {
    1 <= v <= 10 && n <= Capacity(v) && forall u: nat :: 1 <= u < v ==> n > Capacity(u)
  }

  method ChooseVersion(n: nat) returns (version: nat)
    ensures if n > 271 then version == 0 else version > 0 && Smallest(n, version)
  {
    hide DataCodewords, EncoderEc;
    version := 0;
    for v := 1 to 11
      invariant version == 0
      invariant forall u: nat :: 1 <= u < v ==> n > Capacity(u)
    {
      if n <= Capacity(v) {
        LargestCapacity(v);
        return v;
      }
    }
    LargestCapacity(10);
  }

  lemma LargestCapacity(v: nat)
    requires 1 <= v <= 10
    ensures Capacity(v) <= 271 && (v == 10 ==> Capacity(v) == 271)
  {
  }

  lemma Combined(v: nat, base: Matrix, f: Matrix, mask: nat, sent: seq<nat>)
    requires 1 <= v <= 10 && FunctionsMarked(v, f) && Filled(v, sent, base, Pairs(v), 0)
    ensures Shows(v, Candidate(Size(v), base, f, mask), mask, sent)
  {
    hide Cell, IsSquare, InFormat, FormatDark, FormatBits, Flips, Candidate, Free, Pos, Row, Col, MaskBit, Wanted, Reserved;
    var n := Size(v);
    var m := Candidate(n, base, f, mask);
    forall k: nat, t: nat | k < Pairs(v) && t < 2 * n && Free(v, k, t)
      ensures Cell(m, Row(v, k, t), Col(v, k, t)) == (Wanted(sent, Pos(v, k, t)) != MaskBit(mask, Row(v, k, t), Col(v, k, t)))
    {
      var r, c := Row(v, k, t), Col(v, k, t);
      FreeIs(v, k, t);
      assert Cell(f, r, c) == Reserved(v, r, c);
      FlipsIs(f, mask, r, c);
      FormatReserved(v, r, c);
      assert Cell(m, r, c) == CandidateCell(n, base, f, mask, r, c);
    }
    FormatShown(v, base, f, mask);
  }

  lemma FormatReserved(v: nat, r: nat, c: nat)
    requires 1 <= v <= 40 && r < Size(v) && c < Size(v)
    ensures InFormat(Size(v))(r, c) ==> Reserved(v, r, c)
  {
    hide Aligned;
  }

  lemma FormatShown(v: nat, base: Matrix, f: Matrix, mask: nat)
    requires 1 <= v <= 40
    ensures var m := Candidate(Size(v), base, f, mask);
      && (forall i: nat :: i < 15 ==> Cell(m, Row1(i), Col1(i)) == Bit(FormatBits(mask), i))
      && (forall i: nat :: i < 15 ==> Cell(m, Row2(Size(v), i), Col2(Size(v), i)) == Bit(FormatBits(mask), i))
  {
    hide Cell, IsSquare, FormatBits, Flips, Candidate, Bit;
    var n, m := Size(v), Candidate(Size(v), base, f, mask);
    forall i: nat | i < 15 ensures Cell(m, Row1(i), Col1(i)) == Bit(FormatBits(mask), i) {
      var r: nat, c: nat := Row1(i), Col1(i);
      assert Cell(m, r, c) == CandidateCell(n, base, f, mask, r, c);
    }
    forall i: nat | i < 15 ensures Cell(m, Row2(n, i), Col2(n, i)) == Bit(FormatBits(mask), i) {
      var r: nat, c: nat := Row2(n, i), Col2(n, i);
      assert Cell(m, r, c) == CandidateCell(n, base, f, mask, r, c);
    }
  }

  /** A function module that does not show the format word keeps its colour. */
  lemma FunctionStays(v: nat, base: Matrix, base': Matrix, f: Matrix, mask: nat, r: nat, c: nat)
    requires 1 <= v <= 10 && FunctionsMarked(v, f) && Kept(v, base, base') && r < Size(v) && c < Size(v)
    requires Reserved(v, r, c) && !InFormat(Size(v))(r, c)
    ensures Cell(Candidate(Size(v), base', f, mask), r, c) == Cell(base, r, c)
  {
    hide Cell, IsSquare, InFormat, FormatBits, FormatDark, Flips, Candidate, Bit, Reserved;
    var n, m := Size(v), Candidate(Size(v), base', f, mask);
    assert Cell(m, r, c) == CandidateCell(n, base', f, mask, r, c);
    assert Cell(f, r, c);
    FlipsIs(f, mask, r, c);
    assert Cell(base', r, c) == Cell(base, r, c);
  }

  lemma FinderApart(v: nat, r: nat, c: nat)
    requires 1 <= v <= 10 && r < Size(v) && c < Size(v)
    requires Within(3, 3, 4)(r, c) || Within(3, Size(v) - 4, 4)(r, c) || Within(Size(v) - 4, 3, 4)(r, c)
    ensures Reserved(v, r, c) && !InFormat(Size(v))(r, c)
  {
    hide Aligned;
  }

  /** The finder patterns survive everything drawn later. */
  lemma FindersStay(v: nat, base: Matrix, base': Matrix, f: Matrix, mask: nat)
    requires 1 <= v <= 10 && FunctionsMarked(v, f) && Kept(v, base, base') && FindersShown(Size(v), base)
    ensures FindersShown(Size(v), Candidate(Size(v), base', f, mask))
  {
    hide Cell, FinderDark, Candidate, FunctionsMarked, Kept, Within;
    var n, m := Size(v), Candidate(Size(v), base', f, mask);
    forall r: nat, c: nat | r < n && c < n
      ensures Within(3, 3, 4)(r, c) ==> Cell(m, r, c) == FinderDark(3, 3)(r, c)
      ensures Within(3, n - 4, 4)(r, c) ==> Cell(m, r, c) == FinderDark(3, n - 4)(r, c)
      ensures Within(n - 4, 3, 4)(r, c) ==> Cell(m, r, c) == FinderDark(n - 4, 3)(r, c)
    {
      FinderStays(v, base, base', f, mask, r, c);
    }
  }

  lemma FinderStays(v: nat, base: Matrix, base': Matrix, f: Matrix, mask: nat, r: nat, c: nat)
    requires 1 <= v <= 10 && FunctionsMarked(v, f) && Kept(v, base, base') && r < Size(v) && c < Size(v)
    ensures Within(3, 3, 4)(r, c) || Within(3, Size(v) - 4, 4)(r, c) || Within(Size(v) - 4, 3, 4)(r, c) ==>
      Cell(Candidate(Size(v), base', f, mask), r, c) == Cell(base, r, c)
  {
    hide Cell, Candidate, FunctionsMarked, Kept, Within, InFormat, Reserved;
    if Within(3, 3, 4)(r, c) || Within(3, Size(v) - 4, 4)(r, c) || Within(Size(v) - 4, 3, 4)(r, c) {
      FinderApart(v, r, c);
      FunctionStays(v, base, base', f, mask, r, c);
    }
  }

  /** So do all other patterns, and the dark module, which is drawn again with the format word. */
  lemma PatternsStay(v: nat, base: Matrix, base': Matrix, f: Matrix, mask: nat)
    requires 1 <= v <= 10 && FunctionsMarked(v, f) && Kept(v, base, base') && PatternsShown(v, base)
    ensures PatternsShown(v, Candidate(Size(v), base', f, mask))
  {
    hide Cell, Candidate, FunctionsMarked, Kept, FindersShown, OthersShown;
    FindersStay(v, base, base', f, mask);
    DarkModuleStays(v, base', f, mask);
    OthersStay(v, base, base', f, mask);
  }

  lemma OthersStay(v: nat, base: Matrix, base': Matrix, f: Matrix, mask: nat)
    requires 1 <= v <= 10 && FunctionsMarked(v, f) && Kept(v, base, base') && OthersShown(v, base)
    ensures OthersShown(v, Candidate(Size(v), base', f, mask))
  {
    hide Cell, Candidate, FunctionsMarked, Kept, PatternShown;
    var m := Candidate(Size(v), base', f, mask);
    forall r: nat, c: nat | r < Size(v) && c < Size(v) ensures PatternShown(v, m, r, c) {
      assert PatternShown(v, base, r, c);
      PatternStays(v, base, base', f, mask, r, c);
    }
  }

  lemma PatternStays(v: nat, base: Matrix, base': Matrix, f: Matrix, mask: nat, r: nat, c: nat)
    requires 1 <= v <= 10 && FunctionsMarked(v, f) && Kept(v, base, base') && r < Size(v) && c < Size(v)
    requires PatternShown(v, base, r, c)
    ensures PatternShown(v, Candidate(Size(v), base', f, mask), r, c)
  {
    hide Cell, Candidate, FunctionsMarked, Kept, InFormat, Reserved, Within, AlignmentsDark, VersionDark, TimingDark;
    hide GridCapacity.InAlignment, InVersionBlock, OnTimingLine;
    if GridCapacity.InAlignment(v, r, c) || InVersionBlock(v, r, c) || OnTimingLine(Size(v), r, c) {
      PatternApart(v, r, c);
      FunctionStays(v, base, base', f, mask, r, c);
    }
  }

  lemma DarkModuleStays(v: nat, base: Matrix, f: Matrix, mask: nat)
    requires v >= 1
    ensures Cell(Candidate(Size(v), base, f, mask), Size(v) - 8, 8)
  {
    hide Cell, Candidate, FormatBits, Flips;
    var r: nat, c: nat := Size(v) - 8, 8;
    assert Cell(Candidate(Size(v), base, f, mask), r, c) == CandidateCell(Size(v), base, f, mask, r, c);
  }

  /** Encodes a payload at level L in the smallest version that holds it. */
  method QrEncode(payload: seq<nat>, penalty: Matrix -> int)
    returns (s: Symbol, ghost data: seq<seq<nat>>, ghost ecc: seq<seq<nat>>)
    requires forall i :: 0 <= i < |payload| ==> payload[i] < 256
    ensures s.TooLong? <==> |payload| > 271
    ensures s.Symbol? ==>
      && Smallest(|payload|, s.version) && s.size == Size(s.version) && s.mask < 8
      && Blocks(s.version, payload, data, ecc)
      && Shows(s.version, s.modules, s.mask, Sent(VersionDb(s.version).ecc[LEVEL_L], data, ecc))
      && PatternsShown(s.version, s.modules)
  {
    hide *;
    data, ecc := [], [];
    var version := ChooseVersion(|payload|);
    if version == 0 {
      return TooLong, [], [];
    }
    SmallestRange(|payload|, version);
    var out;
    out, data, ecc := Stream(payload, version);
    var size := 17 + 4 * version;
    SizeIs(version);
    var g := new Grid(size);
    g.DrawFunctionPatterns(version);
    ghost var patterns := g.modules;
    DrawData(g, out, version);
    ghost var base, f := g.modules, g.isFunction;
    FormatIsMarked(version, f);
    var best := ChooseMask(g, penalty);
    Combined(version, base, f, best, out);
    PatternsStay(version, patterns, base, f, best);
    s := Symbol(size, g.modules, version, best);
  }

  lemma SmallestRange(n: nat, v: nat)
    requires n <= 271 ==> Smallest(n, v)
    ensures n <= 271 ==> 1 <= v <= 10 && n <= Capacity(v)
  {
  }

  lemma SizeIs(v: nat)
    ensures Size(v) == 17 + 4 * v
  {
  }

  method Stream(payload: seq<nat>, v: nat) returns (out: seq<nat>, data: seq<seq<nat>>, ecc: seq<seq<nat>>)
    requires 1 <= v <= 10 && |payload| <= Capacity(v) && forall i :: 0 <= i < |payload| ==> payload[i] < 256
    ensures Blocks(v, payload, data, ecc) && out == Sent(VersionDb(v).ecc[LEVEL_L], data, ecc)
  {
    hide TablesOk, Carries, Sent, Flat, AllCodewords, VersionDb;
    TablesAgree(v);
    var t := BuildTables();
    var codewords := BuildCodewords(payload, v);
    ghost var info := VersionDb(v);
    ghost var p := info.ecc[LEVEL_L];
    out, data, ecc := Interleave(t, codewords[..], EncoderEc(v), p, LongBlocks(info.dataBytes, p));
  }
}
