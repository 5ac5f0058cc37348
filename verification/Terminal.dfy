/** The terminal as the device keeps it, a ring of 512 rows, refines the model byte by byte. */
module Terminal {
  import opened TermModel

  // ---- the ring as lines ----------------------------------------------------------------------------------------------

  /** Logical row i of a ring that starts at base. */
  function RingIndex(base: nat, i: nat): (r: nat)
    ensures r < SCROLLBACK
  {
    (base + i) % SCROLLBACK
  }

  function Lines(ring: seq<Row>, base: nat, count: nat): (lines: seq<Row>)
    requires |ring| == SCROLLBACK
    ensures |lines| == count && forall i :: 0 <= i < count ==> lines[i] == ring[RingIndex(base, i)]
  {
    seq(count, i requires 0 <= i => ring[RingIndex(base, i)])
  }

  lemma RingInjective(base: nat, i: nat, j: nat)
    requires base < SCROLLBACK && i < SCROLLBACK && j < SCROLLBACK && RingIndex(base, i) == RingIndex(base, j)
    ensures i == j
  {
  }

  lemma LinesWrite(ring: seq<Row>, base: nat, count: nat, i: nat, row: Row)
    requires |ring| == SCROLLBACK && base < SCROLLBACK && i < count <= SCROLLBACK
    ensures Lines(ring[RingIndex(base, i) := row], base, count) == Lines(ring, base, count)[i := row]
  {
    hide RingIndex;
    var lines', lines := Lines(ring[RingIndex(base, i) := row], base, count), Lines(ring, base, count)[i := row];
    forall j | 0 <= j < count ensures lines'[j] == lines[j] {
      if RingIndex(base, i) == RingIndex(base, j) {
        RingInjective(base, i, j);
      }
    }
  }

  /** A ring with room grows at the end. */
  lemma LinesGrow(ring: seq<Row>, base: nat, count: nat, row: Row)
    requires |ring| == SCROLLBACK && base < SCROLLBACK && count < SCROLLBACK
    ensures Lines(ring[RingIndex(base, count) := row], base, count + 1) == Lines(ring, base, count) + [row]
  {
    hide RingIndex;
    forall j | 0 <= j < count ensures RingIndex(base, j) != RingIndex(base, count) {
      if RingIndex(base, count) == RingIndex(base, j) {
        RingInjective(base, count, j);
      }
    }
  }

  /** A full ring gives up its oldest row. */
  lemma LinesTurn(ring: seq<Row>, base: nat, row: Row)
    requires |ring| == SCROLLBACK && base < SCROLLBACK
    ensures Lines(ring[base := row], RingIndex(base, 1), SCROLLBACK) == Lines(ring, base, SCROLLBACK)[1..] + [row]
  {
    var lines, lines' := Lines(ring, base, SCROLLBACK), Lines(ring[base := row], RingIndex(base, 1), SCROLLBACK);
    forall j | 0 <= j < SCROLLBACK ensures lines'[j] == (lines[1..] + [row])[j] {
      if j < SCROLLBACK - 1 {
        assert RingIndex(RingIndex(base, 1), j) == RingIndex(base, j + 1);
        assert RingIndex(base, j + 1) != base;
      } else {
        assert RingIndex(RingIndex(base, 1), j) == base;
      }
    }
  }

  /** History and screen: everything but the last 24 lines, and those. */
  function HistoryOf(ring: seq<Row>, base: nat, count: nat): seq<Row>
    requires |ring| == SCROLLBACK && count >= ROWS
  {
    Lines(ring, base, count)[..count - ROWS]
  }

  function ScreenOf(ring: seq<Row>, base: nat, count: nat): (s: seq<Row>)
    requires |ring| == SCROLLBACK && count >= ROWS
    ensures |s| == ROWS && forall r :: 0 <= r < ROWS ==> s[r] == ring[RingIndex(base, count - ROWS + r)]
  {
    Lines(ring, base, count)[count - ROWS..]
  }

  lemma WriteScreen(ring: seq<Row>, base: nat, count: nat, r: nat, row: Row)
    requires |ring| == SCROLLBACK && base < SCROLLBACK && ROWS <= count <= SCROLLBACK && r < ROWS
    ensures var ring' := ring[RingIndex(base, count - ROWS + r) := row];
      && HistoryOf(ring', base, count) == HistoryOf(ring, base, count)
      && ScreenOf(ring', base, count) == ScreenOf(ring, base, count)[r := row]
  {
    LinesWrite(ring, base, count, count - ROWS + r, row);
  }

  lemma PushGrows(ring: seq<Row>, base: nat, count: nat, row: Row)
    requires |ring| == SCROLLBACK && base < SCROLLBACK && ROWS <= count < SCROLLBACK
    ensures var ring' := ring[RingIndex(base, count) := row];
      && HistoryOf(ring', base, count + 1) == HistoryOf(ring, base, count) + [ScreenOf(ring, base, count)[0]]
      && ScreenOf(ring', base, count + 1) == ScreenOf(ring, base, count)[1..] + [row]
  {
    LinesGrow(ring, base, count, row);
  }

  lemma PushTurns(ring: seq<Row>, base: nat, row: Row)
    requires |ring| == SCROLLBACK && base < SCROLLBACK
    ensures var ring', base' := ring[base := row], RingIndex(base, 1);
      && HistoryOf(ring', base', SCROLLBACK) == (HistoryOf(ring, base, SCROLLBACK) + [ScreenOf(ring, base, SCROLLBACK)[0]])[1..]
      && ScreenOf(ring', base', SCROLLBACK) == ScreenOf(ring, base, SCROLLBACK)[1..] + [row]
  {
    LinesTurn(ring, base, row);
  }

  lemma GrownScrolled(m: Model, ring: seq<Row>, base: nat, count: nat)
    requires |ring| == SCROLLBACK && base < SCROLLBACK && ROWS <= count < SCROLLBACK
    requires m.history == HistoryOf(ring, base, count) && m.screen == ScreenOf(ring, base, count)
    ensures var ring' := ring[RingIndex(base, count) := BlankRow()];
      m.(history := HistoryOf(ring', base, count + 1), screen := ScreenOf(ring', base, count + 1)) == Scrolled(m)
  {
    hide RingIndex, ScreenOf, BlankRow;
    PushGrows(ring, base, count, BlankRow());
  }

  lemma TurnedScrolled(m: Model, ring: seq<Row>, base: nat)
    requires |ring| == SCROLLBACK && base < SCROLLBACK
    requires m.history == HistoryOf(ring, base, SCROLLBACK) && m.screen == ScreenOf(ring, base, SCROLLBACK)
    ensures var ring', base' := ring[base := BlankRow()], RingIndex(base, 1);
      m.(history := HistoryOf(ring', base', SCROLLBACK), screen := ScreenOf(ring', base', SCROLLBACK)) == Scrolled(m)
  {
    hide RingIndex, ScreenOf, BlankRow;
    PushTurns(ring, base, BlankRow());
  }

  /** Fields already closed by a semicolon do not change any more. */
  lemma {:induction false} FieldsClosed(csi: seq<nat>, i: nat)
    requires i <= |csi|
    ensures |Fields(csi[..i])| <= |Fields(csi)|
    ensures forall k :: 0 <= k < |Fields(csi[..i])| - 1 ==> Fields(csi)[k] == Fields(csi[..i])[k]
  {
    if i < |csi| {
      var n := |csi| - 1;
      assert csi[..n][..i] == csi[..i];
      FieldsClosed(csi[..n], i);
    } else {
      assert csi[..i] == csi;
    }
  }

  function FieldValue(field: seq<nat>, dflt: nat): nat {
    if HasDigit(field) then Decimal(field) else dflt
  }

  lemma FieldAppend(field: seq<nat>, c: nat)
    ensures HasDigit(field + [c]) <==> HasDigit(field) || Digit(c)
    ensures Decimal(field + [c]) == if Digit(c) then 10 * Decimal(field) + (c - 0x30) else Decimal(field)
  {
    assert (field + [c])[..|field|] == field;
    assert (field + [c])[|field|] == c;
    forall i | 0 <= i < |field| ensures (field + [c])[i] == field[i] {
    }
  }

  class Term {
    const rows: array2<Cell>
    var rowBase: nat
    var rowCount: nat
    var scrollOff: int
    var curRow: int
    var curCol: int
    var curAttr: nat
    var phase: Phase
    const csi: array<nat>
    var csiLen: nat

    // ---- abstraction ----------------------------------------------------------------------------------------------------

    ghost function RingRow(i: nat): (r: Row)
      requires rows.Length0 == SCROLLBACK && rows.Length1 == COLS && i < SCROLLBACK
      reads rows
      ensures |r| == COLS && forall c :: 0 <= c < COLS ==> r[c] == rows[i, c]
    {
      seq(COLS, c requires 0 <= c < COLS reads rows => rows[i, c])
    }

    ghost function Ring(): (ring: seq<Row>)
      requires rows.Length0 == SCROLLBACK && rows.Length1 == COLS
      reads rows
      ensures |ring| == SCROLLBACK && forall i :: 0 <= i < SCROLLBACK ==> ring[i] == RingRow(i)
    {
      seq(SCROLLBACK, i requires 0 <= i < SCROLLBACK reads rows => RingRow(i))
    }

    ghost predicate Shaped()
      reads this
    {
      && rows.Length0 == SCROLLBACK && rows.Length1 == COLS && csi.Length == CSI_MAX
      && rowBase < SCROLLBACK && ROWS <= rowCount <= SCROLLBACK && csiLen <= CSI_MAX
    }

    ghost function Abs(): Model
      requires Shaped()
      reads this, rows, csi
    {
      var ring := Ring();
      Model(HistoryOf(ring, rowBase, rowCount), ScreenOf(ring, rowBase, rowCount), curRow, curCol, curAttr, phase, csi[..csiLen])
    }

    /** Every field is in range and every stored cell printable. */
    ghost predicate Valid()
      reads this, rows, csi
    {
      Shaped() && Ok(Abs()) && 0 <= scrollOff <= rowCount - ROWS
    }

    // ---- rows ---------------------------------------------------------------------------------------------------------------

    /** The ring is the given rows, but row i reads differently. */
    lemma RowChanged(ring: seq<Row>, i: nat, row: Row)
      requires rows.Length0 == SCROLLBACK && rows.Length1 == COLS && i < SCROLLBACK && |row| == COLS && |ring| == SCROLLBACK
      requires forall k :: 0 <= k < SCROLLBACK ==> |ring[k]| == COLS
      requires forall c :: 0 <= c < COLS ==> rows[i, c] == row[c]
      requires forall k, c :: 0 <= k < SCROLLBACK && k != i && 0 <= c < COLS ==> rows[k, c] == ring[k][c]
      ensures Ring() == ring[i := row]
    {
      forall k | 0 <= k < SCROLLBACK ensures Ring()[k] == ring[i := row][k] {
        assert Ring()[k] == RingRow(k);
      }
    }

    method EraseCells(i: nat, a: nat, b: nat)
      requires rows.Length0 == SCROLLBACK && rows.Length1 == COLS && i < SCROLLBACK && a <= b <= COLS
      modifies rows
      ensures Ring() == old(Ring())[i := Erased(old(Ring())[i], a, b)]
    {
      ghost var ring := Ring();
      for c := a to b
        invariant forall k :: 0 <= k < COLS ==> rows[i, k] == if a <= k < c then BLANK else ring[i][k]
        invariant forall r, k :: 0 <= r < SCROLLBACK && r != i && 0 <= k < COLS ==> rows[r, k] == ring[r][k]
      {
        rows[i, c] := BLANK;
      }
      RowChanged(ring, i, Erased(ring[i], a, b));
    }

    method BlankLine(i: nat)
      requires rows.Length0 == SCROLLBACK && rows.Length1 == COLS && i < SCROLLBACK
      modifies rows
      ensures Ring() == old(Ring())[i := BlankRow()]
    {
      EraseCells(i, 0, COLS);
      assert Erased(old(Ring())[i], 0, COLS) == BlankRow();
    }

    /** Where screen row r is stored. */
    function LiveIndex(r: nat): nat
      requires Shaped() && r < ROWS
      reads this
    {
      RingIndex(rowBase, rowCount - ROWS + r)
    }

    method SetCell(r: nat, c: nat, cell: Cell)
      requires Shaped() && r < ROWS && c < COLS
      modifies rows
      ensures Abs() == WithRow(old(Abs()), r, old(Abs()).screen[r][c := cell])
    {
      ghost var ring, i := Ring(), LiveIndex(r);
      rows[LiveIndex(r), c] := cell;
      RowChanged(ring, i, ring[i][c := cell]);
      WriteScreen(ring, rowBase, rowCount, r, ring[i][c := cell]);
    }

    method EraseLive(r: nat, a: nat, b: nat)
      requires Shaped() && r < ROWS && a <= b <= COLS
      modifies rows
      ensures |old(Abs()).screen[r]| == COLS
      ensures Abs() == WithRow(old(Abs()), r, Erased(old(Abs()).screen[r], a, b))
    {
      ghost var ring, i := Ring(), LiveIndex(r);
      EraseCells(LiveIndex(r), a, b);
      WriteScreen(ring, rowBase, rowCount, r, Erased(ring[i], a, b));
    }

    // ---- lifecycle ------------------------------------------------------------------------------------------------------------

    constructor ()
      ensures Valid() && Abs() == Fresh() && scrollOff == 0 && fresh(rows) && fresh(csi)
    {
      rows := new Cell[SCROLLBACK, COLS]((i, j) => Cell(0, 0));
      csi := new nat[CSI_MAX](_ => 0);
      rowBase, rowCount, scrollOff := 0, ROWS, 0;
      curRow, curCol, curAttr, phase, csiLen := 0, 0, ATTR_DEFAULT, Ground, 0;
      new;
      for r := 0 to ROWS
        modifies rows
        invariant forall i :: 0 <= i < r ==> Ring()[i] == BlankRow()
      {
        BlankLine(r);
      }
      FreshAbs();
    }

    lemma FreshAbs()
      requires Shaped() && rowBase == 0 && rowCount == ROWS && (forall i :: 0 <= i < ROWS ==> Ring()[i] == BlankRow())
      requires curRow == 0 && curCol == 0 && curAttr == ATTR_DEFAULT && phase == Ground && csiLen == 0
      ensures Abs() == Fresh()
    {
      assert Abs().screen == Fresh().screen;
      assert Abs().history == [];
    }

    // ---- cursor and editing -------------------------------------------------------------------------------------------------------

    method PushLine()
      requires Shaped()
      modifies this`rowBase, this`rowCount, rows
      ensures Shaped() && Abs() == Scrolled(old(Abs())) && rowCount >= old(rowCount)
    {
      hide BlankRow, RingIndex, HistoryOf, ScreenOf, Scrolled, Ring;
      if rowCount < SCROLLBACK {
        GrownScrolled(Abs(), Ring(), rowBase, rowCount);
        BlankLine(RingIndex(rowBase, rowCount));
        rowCount := rowCount + 1;
      } else {
        TurnedScrolled(Abs(), Ring(), rowBase);
        BlankLine(rowBase);
        rowBase := RingIndex(rowBase, 1);
      }
    }

    method LineFeed()
      requires Valid()
      modifies this`rowBase, this`rowCount, this`curRow, this`curCol, rows
      ensures Valid() && Abs() == TermModel.LineFeed(old(Abs()))
    {
      hide HistoryOf, ScreenOf, Ok, BlankRow;
      OkShape(Abs());
      LineFeedOk(Abs());
      curCol := 0;
      if curRow >= ROWS - 1 {
        PushLine();
        curRow := ROWS - 1;
      } else {
        curRow := curRow + 1;
      }
    }

    lemma OkShape(m: Model)
      requires Ok(m)
      ensures 0 <= m.row < ROWS && 0 <= m.col <= COLS && |m.screen| == ROWS && AttrOk(m.attr)
    {
    }

    lemma ColumnZero(m: Model)
      requires Ok(m)
      ensures Ok(m.(col := 0)) && TermModel.LineFeed(m.(col := 0)) == TermModel.LineFeed(m) && TermModel.LineFeed(m).col == 0
    {
    }

    method PutChar(ch: nat)
      requires Valid() && 0x20 <= ch <= 0x7e
      modifies this`rowBase, this`rowCount, this`curRow, this`curCol, rows
      ensures Valid() && Abs() == TermModel.PutChar(old(Abs()), ch)
    {
      hide HistoryOf, ScreenOf, Ok, TermModel.LineFeed;
      OkShape(Abs());
      PutCharOk(Abs(), ch);
      if curCol >= COLS {
        ColumnZero(Abs());
        curCol := 0;
        LineFeed();
      }
      OkShape(Abs());
      SetCell(curRow, curCol, Cell(ch, curAttr));
      curCol := curCol + 1;
    }

    // ---- erasing -----------------------------------------------------------------------------------------------------------------

    lemma EraseOk(m: Model, a: nat, b: nat)
      requires Ok(m) && a <= b <= COLS
      ensures Ok(WithRow(m, m.row, Erased(m.screen[m.row], a, b)))
    {
      BlankOk();
      hide AttrOk;
    }

    method EraseLineToEnd()
      requires Valid()
      modifies rows
      ensures Valid() && Abs() == TermModel.EraseLineToEnd(old(Abs()))
    {
      hide HistoryOf, ScreenOf, Ok;
      OkShape(Abs());
      var start := if curCol < COLS then curCol else COLS - 1;
      EraseOk(Abs(), start, COLS);
      EraseLive(curRow, start, COLS);
    }

    method EraseLineToStart()
      requires Valid()
      modifies rows
      ensures Valid() && Abs() == TermModel.EraseLineToStart(old(Abs()))
    {
      hide HistoryOf, ScreenOf, Ok;
      OkShape(Abs());
      var end := if curCol < COLS then curCol else COLS - 1;
      EraseOk(Abs(), 0, end + 1);
      EraseLive(curRow, 0, end + 1);
    }

    method EraseLineAll()
      requires Valid()
      modifies rows
      ensures Valid() && Abs() == TermModel.EraseLineAll(old(Abs()))
    {
      hide HistoryOf, ScreenOf, Ok;
      OkShape(Abs());
      EraseOk(Abs(), 0, COLS);
      RowsWide(Abs());
      assert Erased(Abs().screen[curRow], 0, COLS) == BlankRow();
      EraseLive(curRow, 0, COLS);
    }

    lemma RowsWide(m: Model)
      requires Ok(m)
      ensures forall i :: 0 <= i < ROWS ==> |m.screen[i]| == COLS
    {
    }

    /** Blanks the screen rows from `first` on. */
    method BlankRows(first: nat)
      requires Shaped() && first <= ROWS
      modifies rows
      ensures Shaped() && Abs() == old(Abs()).(screen := BlankFrom(old(Abs()).screen, first))
    {
      hide HistoryOf, ScreenOf, BlankRow, Ok;
      ghost var m := Abs();
      for r := first to ROWS
        invariant Shaped() && Abs() == m.(screen := BlankBetween(m.screen, first, r))
      {
        EraseLive(r, 0, COLS);
        BlankBetweenNext(m.screen, first, r);
        assert Erased(BlankBetween(m.screen, first, r)[r], 0, COLS) == BlankRow();
      }
      assert BlankBetween(m.screen, first, ROWS) == BlankFrom(m.screen, first);
    }

    ghost function BlankBetween(screen: seq<Row>, first: nat, end: nat): (s: seq<Row>)
      ensures |s| == |screen| && forall i :: 0 <= i < |s| ==> s[i] == if first <= i < end then BlankRow() else screen[i]
    {
      seq(|screen|, i requires 0 <= i < |screen| => if first <= i < end then BlankRow() else screen[i])
    }

    lemma BlankBetweenNext(screen: seq<Row>, first: nat, r: nat)
      requires first <= r < |screen|
      ensures BlankBetween(screen, first, r)[r := BlankRow()] == BlankBetween(screen, first, r + 1)
    {
    }

    lemma BlanksOk(m: Model, first: nat)
      requires Ok(m)
      ensures Ok(m.(screen := BlankFrom(m.screen, first)))
    {
      BlankOk();
      hide AttrOk;
    }

    method EraseScreenToEnd()
      requires Valid()
      modifies rows
      ensures Valid() && Abs() == TermModel.EraseScreenToEnd(old(Abs()))
    {
      hide HistoryOf, ScreenOf, Ok, TermModel.EraseLineToEnd;
      OkShape(Abs());
      EraseLineToEnd();
      BlanksOk(Abs(), curRow + 1);
      BlankRows(curRow + 1);
    }

    method EraseScreenAll()
      requires Valid()
      modifies rows
      ensures Valid() && Abs() == TermModel.EraseScreenAll(old(Abs()))
    {
      hide HistoryOf, ScreenOf, Ok;
      BlanksOk(Abs(), 0);
      BlankRows(0);
    }

    // ---- control sequences ---------------------------------------------------------------------------------------------------------

    /** Parses the buffered parameters; every slot is written. */
    method CsiParams(out: array<nat>, max: nat, dflt: nat) returns (n: nat)
      requires Shaped() && 0 < max <= out.Length && out != csi
      modifies out
      ensures n == ParamCount(csi[..csiLen], max)
      ensures forall k :: 0 <= k < max ==> out[k] == Param(csi[..csiLen], k, dflt)
    {
      hide Fields, Decimal, HasDigit;
      ghost var all := csi[..csiLen];
      for i := 0 to max
        invariant forall k :: 0 <= k < i ==> out[k] == dflt
      {
        out[i] := dflt;
      }
      n := 0;
      var val: nat := 0;
      var have := false;
      var i := 0;
      NoFields();
      assert all[..0] == [];
      while i < csiLen && n < max
        invariant i <= csiLen && n <= max && csi[..csiLen] == all
        invariant n == |Fields(all[..i])| - 1
        invariant forall k :: 0 <= k < n ==> out[k] == FieldValue(Fields(all[..i])[k], dflt)
        invariant forall k :: n <= k < max ==> out[k] == dflt
        invariant val == Decimal(Fields(all[..i])[n]) && have == HasDigit(Fields(all[..i])[n])
      {
        var c := csi[i];
        FieldsNext(all, i);
        FieldAppend(Fields(all[..i])[n], c);
        NoFields();
        if 0x30 <= c <= 0x39 {
          val := val * 10 + (c - 0x30);
          have := true;
        } else if c == 0x3b {
          out[n] := if have then val else dflt;
          n := n + 1;
          val := 0;
          have := false;
        }
        i := i + 1;
      }
      FieldsClosed(all, i);
      if n < max {
        assert all[..i] == all;
        out[n] := if have then val else dflt;
        n := n + 1;
      }
    }

    method ApplySgr()
      requires Valid()
      modifies this`curAttr
      ensures Valid() && Abs() == old(Abs()).(attr := SgrAll(old(Abs()).attr, old(Abs()).csi, ParamCount(old(Abs()).csi, 16)))
    {
      hide HistoryOf, ScreenOf, Ok, Sgr, Param, ParamCount;
      ghost var m := Abs();
      OkShape(m);
      var params := new nat[16](_ => 0);
      var n := CsiParams(params, 16, 0);
      ghost var all := csi[..csiLen];
      CountBound(all, 16);
      for i := 0 to n
        invariant Shaped() && Abs() == m.(attr := SgrAll(m.attr, all, i))
        invariant forall k :: 0 <= k < 16 ==> params[k] == Param(all, k, 0)
      {
        curAttr := Sgr(curAttr, params[i]);
      }
      SgrAllOk(m.attr, all, n);
      AttrChange(m, SgrAll(m.attr, all, n));
    }

    lemma CountBound(s: seq<nat>, max: nat)
      ensures ParamCount(s, max) <= max
    {
    }

    lemma AttrChange(m: Model, a: nat)
      requires Ok(m) && AttrOk(a)
      ensures Ok(m.(attr := a))
    {
      hide AttrOk;
    }

    method ClampCursor()
      requires Shaped()
      modifies this`curRow, this`curCol
      ensures Shaped() && Abs() == Clamped(old(Abs()))
    {
      hide HistoryOf, ScreenOf;
      if curRow < 0 { curRow := 0; }
      if curRow >= ROWS { curRow := ROWS - 1; }
      if curCol < 0 { curCol := 0; }
      if curCol > COLS { curCol := COLS; }
    }

    /** The sequences that only move the cursor: first to a position, then by a distance or along one axis. */
    method MoveTo(final: nat)
      requires Valid() && (final == 0x48 || final == 0x66)
      modifies this`curRow, this`curCol
      ensures Shaped() && Abs() == Dispatch(old(Abs()), final)
    {
      hide HistoryOf, ScreenOf, Ok, Param, Clamped;
      var p := new nat[4](_ => 0);
      var _ := CsiParams(p, 2, 1);
      var row: int, col: int := p[0], p[1];
      curRow := row - 1;
      curCol := col - 1;
      ClampCursor();
    }

    method MoveAlong(final: nat)
      requires Valid() && (0x41 <= final <= 0x44 || final == 0x47 || final == 0x64)
      modifies this`curRow, this`curCol
      ensures Shaped() && Abs() == Dispatch(old(Abs()), final)
    {
      hide HistoryOf, ScreenOf, Ok, Param, Clamped;
      var p := new nat[4](_ => 0);
      var _ := CsiParams(p, 1, 1);
      var p0: int := p[0];
      var step := if p0 > 0 then p0 else 1;
      match final {
        case 0x41 => curRow := curRow - step;
        case 0x42 => curRow := curRow + step;
        case 0x43 => curCol := curCol + step;
        case 0x44 => curCol := curCol - step;
        case 0x47 => curCol := p0 - 1;
        case _ => curRow := p0 - 1;
      }
      ClampCursor();
    }

    method DispatchCsi(final: nat)
      requires Valid()
      modifies this`curRow, this`curCol, this`curAttr, rows
      ensures Valid() && Abs() == Dispatch(old(Abs()), final)
    {
      hide HistoryOf, ScreenOf, Ok, Param, ParamCount, SgrAll;
      hide TermModel.EraseLineToEnd, TermModel.EraseLineToStart, TermModel.EraseLineAll;
      hide TermModel.EraseScreenToEnd, TermModel.EraseScreenAll, Clamped;
      DispatchOk(Abs(), final);
      if final == 0x48 || final == 0x66 {
        MoveTo(final);
      } else if 0x41 <= final <= 0x44 || final == 0x47 || final == 0x64 {
        MoveAlong(final);
      } else if final == 0x4b {
        var p := new nat[4](_ => 0);
        var _ := CsiParams(p, 1, 0);
        if p[0] == 1 {
          EraseLineToStart();
        } else if p[0] == 2 {
          EraseLineAll();
        } else {
          EraseLineToEnd();
        }
      } else if final == 0x4a {
        var p := new nat[4](_ => 0);
        var _ := CsiParams(p, 1, 0);
        if p[0] == 2 || p[0] == 3 || p[0] == 1 {
          EraseScreenAll();
        } else {
          EraseScreenToEnd();
        }
      } else if final == 0x6d {
        ApplySgr();
      }
    }

    // ---- the state machine ------------------------------------------------------------------------------------------------------------

    method FeedGround(b: nat)
      requires Valid() && b < 256 && phase == Ground
      modifies this`rowBase, this`rowCount, this`curRow, this`curCol, this`phase, rows
      ensures Valid() && Abs() == Step(old(Abs()), b)
    {
      hide HistoryOf, ScreenOf, Ok, TermModel.LineFeed, TermModel.PutChar;
      OkShape(Abs());
      StepOk(Abs(), b);
      if b == 0x1b {
        phase := Esc;
      } else if b == 0x0d {
        curCol := 0;
      } else if b == 0x0a || b == 0x0b || b == 0x0c {
        LineFeed();
      } else if b == 0x08 {
        if curCol > 0 {
          curCol := curCol - 1;
        }
      } else if b == 0x09 {
        var next := (curCol / 8 + 1) * 8;
        curCol := if next >= COLS then COLS - 1 else next;
      } else if b == 0x07 {
      } else if 0x20 <= b <= 0x7e {
        PutChar(b);
      } else if b >= 0x80 {
        if b / 64 % 4 != 2 {
          PutChar(0x3f);
        }
      }
    }

    method FeedEsc(b: nat)
      requires Valid() && phase == Esc
      modifies this`phase, this`csiLen
      ensures Valid() && Abs() == Step(old(Abs()), b)
    {
      hide HistoryOf, ScreenOf, Ok;
      StepOk(Abs(), b);
      if b == 0x5b {
        phase := Csi;
        csiLen := 0;
        assert csi[..0] == [];
      } else if b != 0x1b {
        phase := Ground;
      }
    }

    method FeedCsi(b: nat)
      requires Valid() && phase == Csi
      modifies this`curRow, this`curCol, this`curAttr, this`phase, this`csiLen, rows, csi
      ensures Valid() && Abs() == Step(old(Abs()), b)
    {
      hide HistoryOf, ScreenOf, Ok, Dispatch;
      StepOk(Abs(), b);
      if 0x40 <= b <= 0x7e {
        DispatchCsi(b);
        phase := Ground;
        csiLen := 0;
        assert csi[..0] == [];
      } else if b == 0x1b {
        phase := Esc;
        csiLen := 0;
        assert csi[..0] == [];
      } else if csiLen < CSI_MAX {
        ghost var before := csi[..csiLen];
        csi[csiLen] := b;
        csiLen := csiLen + 1;
        assert csi[..csiLen] == before + [b];
      }
    }

    /** Runs the bytes through the state machine and pins the view to the bottom. */
    method Feed(data: seq<nat>)
      requires Valid() && forall i :: 0 <= i < |data| ==> data[i] < 256
      modifies this, rows, csi
      ensures Valid() && Abs() == FeedAll(old(Abs()), data) && scrollOff == 0
    {
      hide HistoryOf, ScreenOf, Ok, Step;
      ghost var m := Abs();
      assert data[..0] == [];
      for i := 0 to |data|
        invariant Valid() && Abs() == FeedAll(m, data[..i])
      {
        assert data[..i + 1][..i] == data[..i];
        match phase {
          case Ground => FeedGround(data[i]);
          case Esc => FeedEsc(data[i]);
          case Csi => FeedCsi(data[i]);
        }
      }
      assert data[..|data|] == data;
      scrollOff := 0;
    }

    // ---- reading and scrolling ------------------------------------------------------------------------------------------------------------

    method ScrollMax() returns (max: int)
      requires Valid()
      ensures max == |Abs().history|
    {
      var extra := rowCount - ROWS;
      max := if extra > 0 then extra else 0;
    }

    /** The visible cell: the view lies `scrollOff` rows above the live screen. */
    method CellAt(row: int, col: int) returns (cell: Cell)
      requires Valid()
      ensures var lines := Abs().history + Abs().screen;
        if 0 <= row < ROWS && 0 <= col < COLS then
          && 0 <= |Abs().history| - scrollOff + row < |lines|
          && col < |lines[|Abs().history| - scrollOff + row]|
          && cell == lines[|Abs().history| - scrollOff + row][col]
        else cell == BLANK
    {
      hide Ok, RingIndex, HistoryOf, ScreenOf, Ring, RingRow, Lines;
      if row < 0 || row >= ROWS || col < 0 || col >= COLS {
        return BLANK;
      }
      var top := rowCount - ROWS - scrollOff;
      if top < 0 {
        top := 0;
      }
      var logical := top + row;
      if logical < 0 || logical >= rowCount {
        return BLANK;
      }
      AllLines();
      cell := rows[RingIndex(rowBase, logical), col];
      assert RingRow(RingIndex(rowBase, logical))[col] == cell;
    }

    lemma AllLines()
      requires Shaped()
      ensures Abs().history + Abs().screen == Lines(Ring(), rowBase, rowCount)
    {
    }

    /** Pans the view, clamped to the history. */
    method Scroll(delta: int)
      requires Valid()
      modifies this`scrollOff
      ensures Valid() && Abs() == old(Abs())
      ensures scrollOff == (var off := old(scrollOff) + delta;
                            if off < 0 then 0 else if off > |Abs().history| then |Abs().history| else off)
    {
      hide Ok;
      var off := scrollOff + delta;
      var max := ScrollMax();
      if off < 0 {
        off := 0;
      }
      if off > max {
        off := max;
      }
      scrollOff := off;
    }
  }

  /** A fresh terminal fed printable text shows the wrapped layout. */
  method ShowText(text: seq<nat>) returns (t: Term)
    requires Printable(text)
    ensures t.Valid() && Shows(t.Abs(), text)
  {
    hide Shows, FeedAll;
    t := new Term();
    t.Feed(text);
    TextWraps(text);
  }

  lemma NoFields()
    ensures Fields([]) == [[]] && Decimal([]) == 0 && !HasDigit([])
  {
  }

  lemma FieldsNext(csi: seq<nat>, i: nat)
    requires i < |csi|
    ensures var f := Fields(csi[..i]);
      Fields(csi[..i + 1]) == if csi[i] == SEMICOLON then f + [[]] else f[|f| - 1 := f[|f| - 1] + [csi[i]]]
  {
    assert csi[..i + 1][..i] == csi[..i];
  }
}
