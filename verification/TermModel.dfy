/** The terminal as a history of lines, a screen of 24 rows, a cursor, and a parser state. */
module TermModel {

  const COLS := 50
  const ROWS := 24
  const SCROLLBACK := 512
  const CSI_MAX := 32

  // ---- attributes -----------------------------------------------------------------------------------------------------

  const DEFAULT_COLOR := 9
  const ATTR_DEFAULT := 9 + 16 * 9

  function Fg(a: nat): nat { a % 16 }

  function Bg(a: nat): nat { a / 16 % 16 }

  predicate Bold(a: nat) { a / 256 % 2 == 1 }

  predicate Inverse(a: nat) { a / 512 % 2 == 1 }

  predicate ColourOk(c: nat) { c <= 7 || c == 9 }

  predicate AttrOk(a: nat) { a < 1024 && ColourOk(Fg(a)) && ColourOk(Bg(a)) }

  function WithFg(a: nat, c: nat): nat
    requires c < 16
  {
    a - a % 16 + c
  }

  function WithBg(a: nat, c: nat): nat
    requires c < 16
  {
    a - a / 16 % 16 * 16 + c * 16
  }

  function WithBold(a: nat, on: bool): nat {
    if Bold(a) == on then a else if on then a + 256 else a - 256
  }

  function WithInverse(a: nat, on: bool): nat {
    if Inverse(a) == on then a else if on then a + 512 else a - 512
  }

  /** One code of an SGR sequence. */
  function Sgr(a: nat, code: nat): nat {
    if code == 0 then ATTR_DEFAULT
    else if code == 1 then WithBold(a, true)
    else if code == 7 then WithInverse(a, true)
    else if code == 22 then WithBold(a, false)
    else if code == 27 then WithInverse(a, false)
    else if 30 <= code <= 37 then WithFg(a, code - 30)
    else if code == 39 then WithFg(a, DEFAULT_COLOR)
    else if 40 <= code <= 47 then WithBg(a, code - 40)
    else if code == 49 then WithBg(a, DEFAULT_COLOR)
    else a
  }

  /** Each code sets its own field of the packed attribute and leaves the others; unknown codes change nothing. */
  lemma SgrFields(a: nat, code: nat)
    requires AttrOk(a)
    ensures var s := Sgr(a, code);
      && AttrOk(s)
      && Fg(s) == (if code == 0 || code == 39 then 9 else if 30 <= code <= 37 then code - 30 else Fg(a))
      && Bg(s) == (if code == 0 || code == 49 then 9 else if 40 <= code <= 47 then code - 40 else Bg(a))
      && Bold(s) == (if code == 0 || code == 22 then false else if code == 1 then true else Bold(a))
      && Inverse(s) == (if code == 0 || code == 27 then false else if code == 7 then true else Inverse(a))
  {
    hide WithFg, WithBg, WithBold, WithInverse, Fg, Bg, Bold, Inverse, ColourOk, AttrOk;
    DefaultFields();
    if 30 <= code <= 37 || code == 39 {
      FgFields(a, if code == 39 then 9 else code - 30);
    } else if 40 <= code <= 47 || code == 49 {
      BgFields(a, if code == 49 then 9 else code - 40);
    } else {
      BoldFields(a, code == 1);
      InverseFields(a, code == 7);
    }
  }

  lemma DefaultFields()
    ensures AttrOk(ATTR_DEFAULT) && Fg(ATTR_DEFAULT) == 9 && Bg(ATTR_DEFAULT) == 9 && !Bold(ATTR_DEFAULT) && !Inverse(ATTR_DEFAULT)
  {
  }

  lemma Packed(a: nat)
    requires a < 1024
    ensures a == a % 16 + 16 * (a / 16 % 16) + 256 * (a / 256 % 2) + 512 * (a / 512 % 2)
  {
  }

  lemma FgFields(a: nat, c: nat)
    requires AttrOk(a) && ColourOk(c)
    ensures var s := WithFg(a, c); AttrOk(s) && Fg(s) == c && Bg(s) == Bg(a) && Bold(s) == Bold(a) && Inverse(s) == Inverse(a)
  {
    Packed(a);
    Unpacked(c, a / 16 % 16, a / 256 % 2, a / 512 % 2);
  }

  lemma BgFields(a: nat, c: nat)
    requires AttrOk(a) && ColourOk(c)
    ensures var s := WithBg(a, c); AttrOk(s) && Fg(s) == Fg(a) && Bg(s) == c && Bold(s) == Bold(a) && Inverse(s) == Inverse(a)
  {
    Packed(a);
    Unpacked(a % 16, c, a / 256 % 2, a / 512 % 2);
  }

  lemma BoldFields(a: nat, on: bool)
    requires AttrOk(a)
    ensures var s := WithBold(a, on); AttrOk(s) && Fg(s) == Fg(a) && Bg(s) == Bg(a) && Bold(s) == on && Inverse(s) == Inverse(a)
  {
    Packed(a);
    Unpacked(a % 16, a / 16 % 16, if on then 1 else 0, a / 512 % 2);
  }

  lemma InverseFields(a: nat, on: bool)
    requires AttrOk(a)
    ensures var s := WithInverse(a, on); AttrOk(s) && Fg(s) == Fg(a) && Bg(s) == Bg(a) && Bold(s) == Bold(a) && Inverse(s) == on
  {
    Packed(a);
    Unpacked(a % 16, a / 16 % 16, a / 256 % 2, if on then 1 else 0);
  }

  lemma Unpacked(f: nat, b: nat, o: nat, i: nat)
    requires f < 16 && b < 16 && o < 2 && i < 2
    ensures var a := f + 16 * b + 256 * o + 512 * i;
      a < 1024 && a % 16 == f && a / 16 % 16 == b && a / 256 % 2 == o && a / 512 % 2 == i
  {
  }

  // ---- rows -----------------------------------------------------------------------------------------------------------

  datatype Cell = Cell(ch: nat, attr: nat)

  type Row = seq<Cell>

  const BLANK := Cell(0x20, ATTR_DEFAULT)

  function BlankRow(): (r: Row)
    ensures |r| == COLS && forall c :: 0 <= c < COLS ==> r[c] == BLANK
  {
    seq(COLS, _ => BLANK)
  }

  predicate CellOk(c: Cell) {
    0x20 <= c.ch <= 0x7e && AttrOk(c.attr)
  }

  predicate RowOk(r: Row) {
    |r| == COLS && forall c :: 0 <= c < COLS ==> CellOk(r[c])
  }

  /** Columns from a up to b become blank. */
  function Erased(r: Row, a: nat, b: nat): (r': Row)
    requires a <= b <= |r|
    ensures |r'| == |r|
    ensures forall c :: 0 <= c < |r| ==> r'[c] == if a <= c < b then BLANK else r[c]
  {
    seq(|r|, c requires 0 <= c < |r| => if a <= c < b then BLANK else r[c])
  }

  // ---- the model ------------------------------------------------------------------------------------------------------

  datatype Phase = Ground | Esc | Csi

  datatype Model = Model(history: seq<Row>, screen: seq<Row>, row: int, col: int, attr: nat, phase: Phase, csi: seq<nat>)

  /** Between two bytes. */
  predicate Ok(m: Model) {
    && |m.history| + ROWS <= SCROLLBACK && |m.screen| == ROWS
    && (forall i :: 0 <= i < |m.history| ==> RowOk(m.history[i]))
    && (forall i :: 0 <= i < ROWS ==> RowOk(m.screen[i]))
    && 0 <= m.row < ROWS && 0 <= m.col <= COLS && AttrOk(m.attr) && |m.csi| <= CSI_MAX
  }

  function Fresh(): (m: Model)
    ensures Ok(m)
  {
    Model([], seq(ROWS, _ => BlankRow()), 0, 0, ATTR_DEFAULT, Ground, [])
  }

  /** The top row of the screen goes into the history, which drops its oldest row when it is full. */
  function Scrolled(m: Model): Model
    requires |m.screen| == ROWS
  {
    var history := m.history + [m.screen[0]];
    m.(history := if |history| + ROWS > SCROLLBACK then history[1..] else history,
       screen := m.screen[1..] + [BlankRow()])
  }

  function LineFeed(m: Model): Model
    requires |m.screen| == ROWS
  {
    var m' := m.(col := 0);
    if m.row >= ROWS - 1 then Scrolled(m').(row := ROWS - 1) else m'.(row := m.row + 1)
  }

  function WithRow(m: Model, r: nat, row: Row): Model
    requires r < |m.screen|
  {
    m.(screen := m.screen[r := row])
  }

  /** A character wraps first if the column is past the last. */
  function PutChar(m: Model, ch: nat): Model
    requires Ok(m)
  {
    var w := if m.col >= COLS then LineFeed(m) else m;
    WithRow(w, w.row, w.screen[w.row][w.col := Cell(ch, w.attr)]).(col := w.col + 1)
  }

  function Clamped(m: Model): Model {
    m.(row := if m.row < 0 then 0 else if m.row >= ROWS then ROWS - 1 else m.row,
       col := if m.col < 0 then 0 else if m.col > COLS then COLS else m.col)
  }

  /** The column the erase operations start from or end at. */
  function EraseCol(m: Model): nat
    requires Ok(m)
  {
    if m.col < COLS then m.col else COLS - 1
  }

  function EraseLineToEnd(m: Model): Model
    requires Ok(m)
  {
    WithRow(m, m.row, Erased(m.screen[m.row], EraseCol(m), COLS))
  }

  function EraseLineToStart(m: Model): Model
    requires Ok(m)
  {
    WithRow(m, m.row, Erased(m.screen[m.row], 0, EraseCol(m) + 1))
  }

  function EraseLineAll(m: Model): Model
    requires Ok(m)
  {
    WithRow(m, m.row, BlankRow())
  }

  /** Rows from `first` on become blank. */
  function BlankFrom(screen: seq<Row>, first: nat): (s: seq<Row>)
    ensures |s| == |screen| && forall i :: 0 <= i < |s| ==> s[i] == if i >= first then BlankRow() else screen[i]
  {
    seq(|screen|, i requires 0 <= i < |screen| => if i >= first then BlankRow() else screen[i])
  }

  function EraseScreenToEnd(m: Model): Model
    requires Ok(m)
  {
    var e := EraseLineToEnd(m);
    e.(screen := BlankFrom(e.screen, m.row + 1))
  }

  function EraseScreenAll(m: Model): Model {
    m.(screen := BlankFrom(m.screen, 0))
  }

  // ---- control sequences ------------------------------------------------------------------------------------------------

  predicate Digit(c: nat) { 0x30 <= c <= 0x39 }

  const SEMICOLON := 0x3b

  /** The parameter bytes cut at semicolons. */
  function Fields(csi: seq<nat>): (f: seq<seq<nat>>)
    ensures 1 <= |f| <= |csi| + 1
  {
    if csi == [] then [[]]
    else
      var init, c := Fields(csi[..|csi| - 1]), csi[|csi| - 1];
      if c == SEMICOLON then init + [[]] else init[|init| - 1 := init[|init| - 1] + [c]]
  }

  /** The digits of a field as a decimal number; other bytes do not matter. */
  function Decimal(field: seq<nat>): nat {
    if field == [] then 0
    else
      var c := field[|field| - 1];
      if Digit(c) then 10 * Decimal(field[..|field| - 1]) + (c - 0x30) else Decimal(field[..|field| - 1])
  }

  predicate HasDigit(field: seq<nat>) {
    exists i :: 0 <= i < |field| && Digit(field[i])
  }

  /** Parameter k, or the default where it is missing or empty. */
  function Param(csi: seq<nat>, k: nat, dflt: nat): nat {
    if k < |Fields(csi)| && HasDigit(Fields(csi)[k]) then Decimal(Fields(csi)[k]) else dflt
  }

  function ParamCount(csi: seq<nat>, max: nat): nat {
    if |Fields(csi)| < max then |Fields(csi)| else max
  }

  function SgrAll(a: nat, csi: seq<nat>, n: nat): nat {
    if n == 0 then a else Sgr(SgrAll(a, csi, n - 1), Param(csi, n - 1, 0))
  }

  /** A count of zero moves by one. */
  function Distance(csi: seq<nat>): nat {
    var p := Param(csi, 0, 1);
    if p > 0 then p else 1
  }

  function Dispatch(m: Model, final: nat): Model
    requires Ok(m)
  {
    if final == 0x48 || final == 0x66 then Clamped(m.(row := Param(m.csi, 0, 1) - 1, col := Param(m.csi, 1, 1) - 1))
    else if final == 0x41 then Clamped(m.(row := m.row - Distance(m.csi)))
    else if final == 0x42 then Clamped(m.(row := m.row + Distance(m.csi)))
    else if final == 0x43 then Clamped(m.(col := m.col + Distance(m.csi)))
    else if final == 0x44 then Clamped(m.(col := m.col - Distance(m.csi)))
    else if final == 0x47 then Clamped(m.(col := Param(m.csi, 0, 1) - 1))
    else if final == 0x64 then Clamped(m.(row := Param(m.csi, 0, 1) - 1))
    else if final == 0x4b then
      (var p := Param(m.csi, 0, 0);
       if p == 1 then EraseLineToStart(m) else if p == 2 then EraseLineAll(m) else EraseLineToEnd(m))
    else if final == 0x4a then
      (var p := Param(m.csi, 0, 0); if 1 <= p <= 3 then EraseScreenAll(m) else EraseScreenToEnd(m))
    else if final == 0x6d then m.(attr := SgrAll(m.attr, m.csi, ParamCount(m.csi, 16)))
    else m
  }

  // ---- one byte -----------------------------------------------------------------------------------------------------------

  function Tab(m: Model): Model
    requires 0 <= m.col
  {
    var next := (m.col / 8 + 1) * 8;
    m.(col := if next >= COLS then COLS - 1 else next)
  }

  /** Not a byte of the form 10xxxxxx. */
  predicate Leads(b: nat) { b / 64 % 4 != 2 }

  function OnGround(m: Model, b: nat): Model
    requires Ok(m)
  {
    if b == 0x1b then m.(phase := Esc)
    else if b == 0x0d then m.(col := 0)
    else if b == 0x0a || b == 0x0b || b == 0x0c then LineFeed(m)
    else if b == 0x08 then (if m.col > 0 then m.(col := m.col - 1) else m)
    else if b == 0x09 then Tab(m)
    else if b == 0x07 then m
    else if 0x20 <= b <= 0x7e then PutChar(m, b)
    else if b >= 0x80 && Leads(b) then PutChar(m, 0x3f)
    else m
  }

  function OnEsc(m: Model, b: nat): Model {
    if b == 0x5b then m.(phase := Csi, csi := [])
    else if b == 0x1b then m
    else m.(phase := Ground)
  }

  function OnCsi(m: Model, b: nat): Model
    requires Ok(m)
  {
    if 0x40 <= b <= 0x7e then Dispatch(m, b).(phase := Ground, csi := [])
    else if b == 0x1b then m.(phase := Esc, csi := [])
    else if |m.csi| < CSI_MAX then m.(csi := m.csi + [b])
    else m
  }

  function Step(m: Model, b: nat): Model
    requires Ok(m)
  {
    match m.phase
    case Ground => OnGround(m, b)
    case Esc => OnEsc(m, b)
    case Csi => OnCsi(m, b)
  }

  // ---- invariants -----------------------------------------------------------------------------------------------------------

  lemma BlankOk()
    ensures CellOk(BLANK)
  {
  }

  lemma LineFeedOk(m: Model)
    requires Ok(m)
    ensures Ok(LineFeed(m))
  {
    hide AttrOk;
    BlankOk();
  }

  lemma PutCharOk(m: Model, ch: nat)
    requires Ok(m) && 0x20 <= ch <= 0x7e
    ensures Ok(PutChar(m, ch))
  {
    hide AttrOk;
    LineFeedOk(m);
  }

  lemma {:induction false} SgrAllOk(a: nat, csi: seq<nat>, n: nat)
    requires AttrOk(a)
    ensures AttrOk(SgrAll(a, csi, n))
  {
    if n > 0 {
      SgrAllOk(a, csi, n - 1);
      SgrFields(SgrAll(a, csi, n - 1), Param(csi, n - 1, 0));
    }
  }

  lemma DispatchOk(m: Model, final: nat)
    requires Ok(m)
    ensures Ok(Dispatch(m, final))
  {
    hide AttrOk, RowOk, Param, Fields, EraseLineToEnd, EraseLineToStart, EraseLineAll, EraseScreenToEnd, EraseScreenAll;
    EraseLineOk(m);
    EraseScreenOk(m);
    SgrAllOk(m.attr, m.csi, ParamCount(m.csi, 16));
  }

  lemma ErasedOk(r: Row, a: nat, b: nat)
    requires RowOk(r) && a <= b <= COLS
    ensures RowOk(Erased(r, a, b)) && RowOk(BlankRow())
  {
    hide AttrOk;
    BlankOk();
  }

  lemma EraseLineOk(m: Model)
    requires Ok(m)
    ensures Ok(EraseLineToEnd(m)) && Ok(EraseLineToStart(m)) && Ok(EraseLineAll(m))
  {
    hide AttrOk, RowOk, Erased, BlankRow;
    ErasedOk(m.screen[m.row], EraseCol(m), COLS);
    ErasedOk(m.screen[m.row], 0, EraseCol(m) + 1);
  }

  lemma EraseScreenOk(m: Model)
    requires Ok(m)
    ensures Ok(EraseScreenToEnd(m)) && Ok(EraseScreenAll(m))
  {
    hide AttrOk, RowOk, Erased, BlankRow, EraseLineToEnd;
    EraseLineOk(m);
    ErasedOk(m.screen[m.row], 0, COLS);
    LineErased(m);
  }

  lemma LineErased(m: Model)
    requires Ok(m)
    ensures EraseLineToEnd(m) == m.(screen := EraseLineToEnd(m).screen)
  {
  }

  /** Every byte keeps the model in order. */
  lemma StepOk(m: Model, b: nat)
    requires Ok(m)
    ensures Ok(Step(m, b))
  {
    hide AttrOk, LineFeed, PutChar, Dispatch;
    if m.phase == Ground {
      LineFeedOk(m);
      if 0x20 <= b <= 0x7e {
        PutCharOk(m, b);
      }
      PutCharOk(m, 0x3f);
    } else if m.phase == Csi {
      DispatchOk(m, b);
    }
  }

  // ---- whole streams --------------------------------------------------------------------------------------------------------

  function FeedAll(m: Model, data: seq<nat>): (m': Model)
    requires Ok(m)
    ensures Ok(m')
  {
    if data == [] then m
    else
      var before := FeedAll(m, data[..|data| - 1]);
      StepOk(before, data[|data| - 1]);
      Step(before, data[|data| - 1])
  }

  /** Feeding in pieces is feeding the whole: also a control sequence cut in two resumes. */
  lemma {:induction false} FeedConcat(m: Model, a: seq<nat>, b: seq<nat>)
    requires Ok(m)
    ensures FeedAll(m, a + b) == FeedAll(FeedAll(m, a), b)
  {
    hide Ok, Step;
    if b == [] {
      assert a + b == a;
    } else {
      assert (a + b)[..|a + b| - 1] == a + b[..|b| - 1];
      FeedConcat(m, a, b[..|b| - 1]);
    }
  }

  /** The newest 488 rows. */
  function Newest(rows: seq<Row>): seq<Row> {
    if |rows| + ROWS > SCROLLBACK then rows[|rows| + ROWS - SCROLLBACK..] else rows
  }

  /** h became h' by rows added at its end; the oldest ones may be gone, the others are unchanged. */
  ghost predicate Grew(h: seq<Row>, h': seq<Row>) {
    exists added: seq<Row> :: h' == Newest(h + added)
  }

  lemma GrewTransitive(h: seq<Row>, h': seq<Row>, h'': seq<Row>)
    requires Grew(h, h') && Grew(h', h'')
    ensures Grew(h, h'')
  {
    hide Newest;
    var a: seq<Row> :| h' == Newest(h + a);
    var b: seq<Row> :| h'' == Newest(h' + b);
    assert h + (a + b) == (h + a) + b;
    NewestTwice(h + a, b);
  }

  lemma NewestTwice(s: seq<Row>, b: seq<Row>)
    ensures Newest(Newest(s) + b) == Newest(s + b)
  {
  }

  lemma StepGrows(m: Model, b: nat)
    requires Ok(m)
    ensures Grew(m.history, Step(m, b).history)
  {
    hide Ok, Grew, LineFeed, PutChar, Dispatch;
    StepGrowsNot(m);
    LineFeedGrows(m);
    if m.phase == Ground {
      PutHistory(m, b);
      PutHistory(m, 0x3f);
    } else if m.phase == Csi {
      DispatchHistory(m, b);
    }
  }

  lemma LineFeedGrows(m: Model)
    requires Ok(m)
    ensures Grew(m.history, LineFeed(m).history)
  {
    hide AttrOk, RowOk, BlankRow;
    StepGrowsNot(m);
    assert Newest(m.history + [m.screen[0]]) ==
      if |m.history| + 1 + ROWS > SCROLLBACK then (m.history + [m.screen[0]])[1..] else m.history + [m.screen[0]];
  }

  lemma PutHistory(m: Model, ch: nat)
    requires Ok(m)
    ensures PutChar(m, ch).history == if m.col >= COLS then LineFeed(m).history else m.history
  {
    hide AttrOk, RowOk, BlankRow;
  }

  lemma DispatchHistory(m: Model, final: nat)
    requires Ok(m)
    ensures Dispatch(m, final).history == m.history
  {
    hide AttrOk, RowOk, Param, SgrAll, ParamCount, BlankRow, BlankFrom, Erased;
  }

  /** Rows in the history never change until they are dropped, oldest first. */
  lemma {:induction false} HistoryKept(m: Model, data: seq<nat>)
    requires Ok(m)
    ensures Grew(m.history, FeedAll(m, data).history)
  {
    hide Ok, Step, Newest;
    if data == [] {
      StepGrowsNot(m);
    } else {
      var before := FeedAll(m, data[..|data| - 1]);
      HistoryKept(m, data[..|data| - 1]);
      StepGrows(before, data[|data| - 1]);
      GrewTransitive(m.history, before.history, FeedAll(m, data).history);
    }
  }

  lemma StepGrowsNot(m: Model)
    requires Ok(m)
    ensures Grew(m.history, m.history)
  {
    assert m.history + [] == m.history;
    assert Newest(m.history + []) == m.history;
  }

  // ---- printable text -------------------------------------------------------------------------------------------------------------

  ghost predicate Printable(text: seq<nat>) {
    forall i :: 0 <= i < |text| ==> 0x20 <= text[i] <= 0x7e
  }

  /** Row i of the text laid out 50 characters a row. */
  function LayoutRow(text: seq<nat>, i: nat): (r: Row)
    ensures |r| == COLS
    ensures forall c :: 0 <= c < COLS ==> r[c] == if COLS * i + c < |text| then Cell(text[COLS * i + c], ATTR_DEFAULT) else BLANK
  {
    seq(COLS, c requires 0 <= c < COLS => if COLS * i + c < |text| then Cell(text[COLS * i + c], ATTR_DEFAULT) else BLANK)
  }

  /** At least a screenful of rows. */
  function LayoutRows(n: nat): (r: nat)
    ensures r >= ROWS && COLS * r >= n
  {
    var needed := (n + COLS - 1) / COLS;
    if needed < ROWS then ROWS else needed
  }

  /** The last 512 rows of the layout. */
  function Layout(text: seq<nat>): (rows: seq<Row>)
    ensures ROWS <= |rows| <= SCROLLBACK && forall i :: 0 <= i < |rows| ==> |rows[i]| == COLS
  {
    var total := LayoutRows(|text|);
    var first := if total > SCROLLBACK then total - SCROLLBACK else 0;
    var rows := seq(total - first, i requires 0 <= i => LayoutRow(text, first + i));
    assert forall i :: 0 <= i < |rows| ==> rows[i] == LayoutRow(text, first + i);
    rows
  }

  /** What a fresh terminal shows after printable text: the wrapped layout, the cursor where it ends. */
  ghost predicate Shows(m: Model, text: seq<nat>) {
    && |m.screen| == ROWS && m.history + m.screen == Layout(text)
    && m.phase == Ground && m.attr == ATTR_DEFAULT
    && (if |text| == 0 then m.row == 0 && m.col == 0
        else m.col == (|text| - 1) % COLS + 1 && m.row == if |text| <= ROWS * COLS then (|text| - 1) / COLS else ROWS - 1)
  }

  lemma LayoutRowExtend(text: seq<nat>, ch: nat, i: nat)
    ensures LayoutRow(text + [ch], i) ==
      if i == |text| / COLS then LayoutRow(text, i)[|text| % COLS := Cell(ch, ATTR_DEFAULT)] else LayoutRow(text, i)
  {
    var n := |text|;
    var t, u := LayoutRow(text + [ch], i), LayoutRow(text, i);
    forall c | 0 <= c < COLS
      ensures t[c] == if i == n / COLS && c == n % COLS then Cell(ch, ATTR_DEFAULT) else u[c]
    {
    }
  }

  lemma LayoutSize(text: seq<nat>)
    ensures var total := LayoutRows(|text|); var first := if total > SCROLLBACK then total - SCROLLBACK else 0;
      |Layout(text)| == total - first && forall i :: 0 <= i < total - first ==> Layout(text)[i] == LayoutRow(text, first + i)
  {
  }

  /** The character lands in a row that is already there. */
  lemma LayoutWrite(text: seq<nat>, ch: nat)
    requires |text| < ROWS * COLS || |text| % COLS != 0
    ensures var k := |text| / COLS - (LayoutRows(|text|) - |Layout(text)|);
      && 0 <= k < |Layout(text)|
      && Layout(text + [ch]) == Layout(text)[k := Layout(text)[k][|text| % COLS := Cell(ch, ATTR_DEFAULT)]]
  {
    hide Layout, LayoutRow;
    LayoutSize(text);
    LayoutSize(text + [ch]);
    assert LayoutRows(|text| + 1) == LayoutRows(|text|);
    forall i: nat ensures LayoutRow(text + [ch], i) ==
      if i == |text| / COLS then LayoutRow(text, i)[|text| % COLS := Cell(ch, ATTR_DEFAULT)] else LayoutRow(text, i)
    {
      LayoutRowExtend(text, ch, i);
    }
  }

  /** The character opens a new row below the last one. */
  lemma LayoutScroll(text: seq<nat>, ch: nat)
    requires |text| >= ROWS * COLS && |text| % COLS == 0
    ensures Layout(text + [ch]) ==
      (if |Layout(text)| == SCROLLBACK then Layout(text)[1..] else Layout(text)) + [BlankRow()[0 := Cell(ch, ATTR_DEFAULT)]]
  {
    hide Layout, LayoutRow;
    LayoutSize(text);
    LayoutSize(text + [ch]);
    var total := LayoutRows(|text|);
    assert LayoutRows(|text| + 1) == total + 1 == |text| / COLS + 1;
    forall i: nat ensures LayoutRow(text + [ch], i) ==
      if i == |text| / COLS then LayoutRow(text, i)[|text| % COLS := Cell(ch, ATTR_DEFAULT)] else LayoutRow(text, i)
    {
      LayoutRowExtend(text, ch, i);
    }
    PastTheText(text, total);
  }

  lemma PastTheText(text: seq<nat>, i: nat)
    requires COLS * i >= |text|
    ensures LayoutRow(text, i) == BlankRow()
  {
  }

  lemma ShowsStep(m: Model, text: seq<nat>, ch: nat)
    requires Ok(m) && Shows(m, text) && 0x20 <= ch <= 0x7e
    ensures Shows(Step(m, ch), text + [ch])
  {
    hide Layout, BlankRow, AttrOk;
    LayoutSize(text);
    if |text| >= ROWS * COLS && |text| % COLS == 0 {
      LayoutScroll(text, ch);
      ScrolledPut(m, ch);
    } else {
      LayoutWrite(text, ch);
      PlainPut(m, text, ch);
    }
  }

  lemma ScrolledPut(m: Model, ch: nat)
    requires Ok(m) && m.phase == Ground && m.row == ROWS - 1 && m.col == COLS && 0x20 <= ch <= 0x7e
    ensures var s := Step(m, ch); var lines := m.history + m.screen;
      && s == PutChar(m, ch) && s.row == ROWS - 1 && s.col == 1 && |s.screen| == ROWS
      && s.history + s.screen == (if |lines| == SCROLLBACK then lines[1..] else lines) + [BlankRow()[0 := Cell(ch, m.attr)]]
  {
    hide BlankRow, AttrOk, RowOk;
    var s, lines := Step(m, ch), m.history + m.screen;
    var w := LineFeed(m);
    assert w.screen == m.screen[1..] + [BlankRow()];
    assert w.history + w.screen == (if |lines| == SCROLLBACK then lines[1..] else lines) + [BlankRow()];
    assert s.screen == w.screen[..ROWS - 1] + [BlankRow()[0 := Cell(ch, m.attr)]];
  }

  lemma PlainPut(m: Model, text: seq<nat>, ch: nat)
    requires Ok(m) && Shows(m, text) && 0x20 <= ch <= 0x7e && (|text| < ROWS * COLS || |text| % COLS != 0)
    ensures var s, lines, k := Step(m, ch), m.history + m.screen, |text| / COLS - (LayoutRows(|text|) - |Layout(text)|);
      && s == PutChar(m, ch) && s.row == (if |text| < ROWS * COLS then |text| / COLS else ROWS - 1) && s.col == |text| % COLS + 1
      && |s.screen| == ROWS && 0 <= k < |lines|
      && |lines[k]| == COLS && s.history + s.screen == lines[k := lines[k][|text| % COLS := Cell(ch, m.attr)]]
  {
    hide Layout, BlankRow, AttrOk, LineFeed, LayoutRows;
    PlainSpot(m, text);
    var s, lines := Step(m, ch), m.history + m.screen;
    assert s.history == m.history;
    assert lines[|m.history| + s.row] == m.screen[s.row];
  }

  /** Where the next character goes; a line feed that is due does not scroll. */
  lemma PlainSpot(m: Model, text: seq<nat>)
    requires Ok(m) && Shows(m, text) && (|text| < ROWS * COLS || |text| % COLS != 0)
    ensures var w := if m.col >= COLS then LineFeed(m) else m;
      && w.screen == m.screen && w.history == m.history && w.attr == m.attr && w.col == |text| % COLS
      && w.row == (if |text| < ROWS * COLS then |text| / COLS else ROWS - 1)
      && |m.history| + w.row == |text| / COLS - (LayoutRows(|text|) - |Layout(text)|)
  {
    hide Layout, BlankRow, AttrOk, LayoutRows;
    LayoutSize(text);
    RowsUsed(|text|);
  }

  /** Rows and the place of the last character, with or without a full last row. */
  lemma RowsUsed(n: nat)
    ensures LayoutRows(n) == (var used := if n % COLS == 0 then n / COLS else n / COLS + 1; if used < ROWS then ROWS else used)
    ensures n > 0 && n % COLS != 0 ==> (n - 1) % COLS + 1 == n % COLS && (n - 1) / COLS == n / COLS
    ensures n > 0 && n % COLS == 0 ==> (n - 1) % COLS + 1 == COLS && (n - 1) / COLS + 1 == n / COLS
  {
  }

  lemma FreshShows()
    ensures Shows(Fresh(), [])
  {
    forall i: nat ensures LayoutRow([], i) == BlankRow() {
      PastTheText([], i);
    }
  }

  /** Printable text wraps at 50 columns, and the last 512 rows of the wrapped layout are kept. */
  lemma {:induction false} TextWraps(text: seq<nat>)
    requires Printable(text)
    ensures Shows(FeedAll(Fresh(), text), text)
  {
    hide Shows, Step, Ok;
    if text == [] {
      FreshShows();
    } else {
      var n := |text| - 1;
      TextWraps(text[..n]);
      ShowsStep(FeedAll(Fresh(), text[..n]), text[..n], text[n]);
      assert text[..n] + [text[n]] == text;
    }
  }
}
