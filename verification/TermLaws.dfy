/** What control bytes and escape sequences do to the terminal, each on the whole model and in terms of the bytes fed. */
module TermLaws {
  import opened TermModel

  // ---- parameters -----------------------------------------------------------------------------------------------------

  /** Bytes that neither end nor abort a sequence. */
  ghost predicate ParamBytes(s: seq<nat>) {
    |s| <= 32 && forall i :: 0 <= i < |s| ==> !(0x40 <= s[i] <= 0x7e) && s[i] != 0x1b
  }

  /** The decimal digits of a number. */
  function Numeral(n: nat): (s: seq<nat>)
    ensures |s| > 0 && forall i :: 0 <= i < |s| ==> 0x30 <= s[i] <= 0x39
  {
    (if n < 10 then [] else Numeral(n / 10)) + [0x30 + n % 10]
  }

  lemma {:induction false} DecimalNumeral(n: nat)
    ensures Decimal(Numeral(n)) == n && HasDigit(Numeral(n))
  {
    var s := if n < 10 then [] else Numeral(n / 10);
    var d := 0x30 + n % 10;
    assert Numeral(n) == s + [d];
    if n >= 10 {
      DecimalNumeral(n / 10);
    }
    hide Numeral;
    MoreDigits(s, d);
  }

  lemma MoreDigits(s: seq<nat>, d: nat)
    requires Digit(d)
    ensures Decimal(s + [d]) == 10 * Decimal(s) + (d - 0x30) && HasDigit(s + [d])
  {
    assert (s + [d])[..|s|] == s && (s + [d])[|s|] == d;
  }

  /** Bytes without a semicolon extend the last field. */
  lemma {:induction false} FieldsExtend(a: seq<nat>, b: seq<nat>)
    requires 0x3b !in b
    ensures Fields(a + b) == Fields(a)[|Fields(a)| - 1 := Fields(a)[|Fields(a)| - 1] + b]
  {
    if b == [] {
      assert a + b == a;
      assert Fields(a)[|Fields(a)| - 1] + [] == Fields(a)[|Fields(a)| - 1];
    } else {
      var n := |b| - 1;
      assert (a + b)[..|a + b| - 1] == a + b[..n];
      FieldsExtend(a, b[..n]);
      assert b[..n] + [b[n]] == b;
      assert (Fields(a)[|Fields(a)| - 1] + b[..n]) + [b[n]] == Fields(a)[|Fields(a)| - 1] + b;
    }
  }

  /** A semicolon separates the fields before it from those after it. */
  lemma {:induction false} FieldsSplit(a: seq<nat>, b: seq<nat>)
    ensures Fields(a + [0x3b] + b) == Fields(a) + Fields(b)
  {
    NoDigits();
    hide Fields;
    if b == [] {
      assert a + [0x3b] + b == a + [0x3b];
      FieldsNext(a, 0x3b);
    } else {
      var n := |b| - 1;
      assert (a + [0x3b] + b)[..|a| + n + 1] == a + [0x3b] + b[..n];
      FieldsSplit(a, b[..n]);
      FieldsNext(a + [0x3b] + b[..n], b[n]);
      FieldsNext(b[..n], b[n]);
      assert a + [0x3b] + b == (a + [0x3b] + b[..n]) + [b[n]] && b == b[..n] + [b[n]];
      LastOfTwo(Fields(a), Fields(b[..n]), Fields(b[..n])[|Fields(b[..n])| - 1] + [b[n]]);
    }
  }

  lemma LastOfTwo(f: seq<seq<nat>>, g: seq<seq<nat>>, last: seq<nat>)
    requires |g| > 0
    ensures (f + g) + [[]] == f + (g + [[]]) && (f + g)[|f + g| - 1] == g[|g| - 1]
    ensures (f + g)[|f + g| - 1 := last] == f + g[|g| - 1 := last]
  {
  }

  lemma FieldsNext(s: seq<nat>, b: nat)
    ensures var f := Fields(s);
      Fields(s + [b]) == if b == 0x3b then f + [[]] else f[|f| - 1 := f[|f| - 1] + [b]]
  {
    assert (s + [b])[..|s|] == s;
  }

  /** A parameter is the number its digits write, whatever stands behind its semicolon; one that is missing or empty has
      the default. */
  lemma Parameters(n: nat, rest: seq<nat>, k: nat, dflt: nat)
    ensures Param([], k, dflt) == dflt
    ensures Param(Numeral(n), 0, dflt) == n && Param(Numeral(n), k + 1, dflt) == dflt
    ensures Param(Numeral(n) + [0x3b] + rest, 0, dflt) == n
    ensures Param(Numeral(n) + [0x3b] + rest, k + 1, dflt) == Param(rest, k, dflt)
    ensures Param([0x3b] + rest, 0, dflt) == dflt && Param([0x3b] + rest, k + 1, dflt) == Param(rest, k, dflt)
  {
    hide Numeral, Fields, Decimal, HasDigit;
    DecimalNumeral(n);
    NoDigits();
    FieldsExtend([], Numeral(n));
    assert [] + Numeral(n) == Numeral(n);
    FieldsSplit(Numeral(n), rest);
    FieldsSplit([], rest);
    assert [] + [0x3b] + rest == [0x3b] + rest;
  }

  lemma NoDigits()
    ensures Fields([]) == [[]] && !HasDigit([])
  {
  }

  /** A byte that is no digit does not count inside a parameter, like the question mark of a private mode. */
  lemma Skipped(a: seq<nat>, b: nat, c: seq<nat>, dflt: nat)
    requires !(0x30 <= b <= 0x39) && 0x3b !in a + [b] + c
    ensures Param(a + [b] + c, 0, dflt) == Param(a + c, 0, dflt)
  {
    hide Fields, HasDigit, Decimal;
    OneField(a + [b] + c);
    OneField(a + c);
    SkipAt(a, b, c);
  }

  lemma OneField(a: seq<nat>)
    requires 0x3b !in a
    ensures Fields(a) == [a]
  {
    hide Fields;
    NoDigits();
    FieldsExtend([], a);
    assert [] + a == a;
  }

  lemma {:induction false} SkipAt(a: seq<nat>, b: nat, c: seq<nat>)
    requires !Digit(b)
    ensures Decimal(a + [b] + c) == Decimal(a + c) && HasDigit(a + [b] + c) == HasDigit(a + c)
  {
    if c == [] {
      assert a + [b] + c == a + [b] && a + c == a && (a + [b])[..|a|] == a;
      Digits(a, b);
    } else {
      var n := |c| - 1;
      assert (a + [b] + c)[..|a| + 1 + n] == a + [b] + c[..n] && (a + c)[..|a| + n] == a + c[..n];
      SkipAt(a, b, c[..n]);
      Digits(a + [b] + c[..n], c[n]);
      Digits(a + c[..n], c[n]);
      assert a + [b] + c == (a + [b] + c[..n]) + [c[n]] && a + c == (a + c[..n]) + [c[n]];
    }
  }

  lemma Digits(a: seq<nat>, b: nat)
    ensures HasDigit(a + [b]) == (HasDigit(a) || Digit(b))
  {
    if HasDigit(a) {
      var i :| 0 <= i < |a| && Digit(a[i]);
      assert (a + [b])[i] == a[i];
    }
    assert (a + [b])[|a|] == b;
  }

  // ---- one sequence -------------------------------------------------------------------------------------------------------

  ghost predicate Ready(m: Model) {
    Ok(m) && m.phase == Ground
  }

  /** The bytes of a control sequence. */
  function Sequence(params: seq<nat>, final: nat): seq<nat> {
    [0x1b, 0x5b] + params + [final]
  }

  lemma {:induction false} Collects(m: Model, params: seq<nat>)
    requires Ok(m) && m.phase == Csi && m.csi == [] && ParamBytes(params)
    ensures FeedAll(m, params) == m.(csi := params)
  {
    hide Ok, Dispatch;
    if params != [] {
      var n := |params| - 1;
      Collects(m, params[..n]);
      assert params[..n] + [params[n]] == params;
      CollectsOne(m.(csi := params[..n]), params[n]);
    }
  }

  lemma CollectsOne(m: Model, b: nat)
    requires Ok(m) && m.phase == Csi && |m.csi| < 32 && !(0x40 <= b <= 0x7e) && b != 0x1b
    ensures Step(m, b) == m.(csi := m.csi + [b])
  {
    hide Dispatch, AttrOk, RowOk;
  }

  /** The final byte acts on the state the sequence found, with the bytes between as parameters. */
  lemma Dispatched(m: Model, params: seq<nat>, final: nat)
    requires Ready(m) && ParamBytes(params) && 0x40 <= final <= 0x7e
    ensures Ok(m.(phase := Csi, csi := params))
    ensures FeedAll(m, Sequence(params, final)) == Dispatch(m.(phase := Csi, csi := params), final).(phase := Ground, csi := [])
  {
    hide Dispatch, AttrOk, RowOk, Step;
    var start := m.(phase := Csi, csi := []);
    Opens(m);
    FeedConcat(m, [0x1b, 0x5b] + params, [final]);
    FeedConcat(m, [0x1b, 0x5b], params);
    Collects(start, params);
    Ends(m.(phase := Csi, csi := params), final);
  }

  lemma Opens(m: Model)
    requires Ready(m)
    ensures FeedAll(m, [0x1b, 0x5b]) == m.(phase := Csi, csi := [])
  {
    hide Dispatch, AttrOk, RowOk, LineFeed, PutChar;
    var one := m.(phase := Esc);
    FeedOne(m, 0x1b);
    FeedOne(one, 0x5b);
    FeedConcat(m, [0x1b], [0x5b]);
    assert [0x1b] + [0x5b] == [0x1b, 0x5b];
  }

  lemma FeedOne(m: Model, b: nat)
    requires Ok(m)
    ensures FeedAll(m, [b]) == Step(m, b)
  {
    hide Ok, Step;
    assert [b][..0] == [];
  }

  lemma Ends(m: Model, final: nat)
    requires Ok(m) && m.phase == Csi && 0x40 <= final <= 0x7e
    ensures FeedAll(m, [final]) == Dispatch(m, final).(phase := Ground, csi := [])
  {
    hide Dispatch, AttrOk, RowOk;
    FeedOne(m, final);
  }

  // ---- moving the cursor ----------------------------------------------------------------------------------------------------

  /** ESC [ n A: up by n rows, by one if n is missing or 0, not past the first; everything else stays. */
  lemma CursorUp(m: Model, params: seq<nat>)
    requires Ready(m) && ParamBytes(params)
    ensures var n := Param(params, 0, 1); var d := if n == 0 then 1 else n;
      FeedAll(m, Sequence(params, 0x41)) == m.(row := if m.row < d then 0 else m.row - d, csi := [])
  {
    hide FeedAll, Sequence, Param, AttrOk, RowOk;
    Dispatched(m, params, 0x41);
  }

  /** ESC [ n B: down, not past the last row. */
  lemma CursorDown(m: Model, params: seq<nat>)
    requires Ready(m) && ParamBytes(params)
    ensures var n := Param(params, 0, 1); var d := if n == 0 then 1 else n;
      FeedAll(m, Sequence(params, 0x42)) == m.(row := if m.row + d > 23 then 23 else m.row + d, csi := [])
  {
    hide FeedAll, Sequence, Param, AttrOk, RowOk;
    Dispatched(m, params, 0x42);
  }

  /** ESC [ n C: right, up to the place behind the last column. */
  lemma CursorRight(m: Model, params: seq<nat>)
    requires Ready(m) && ParamBytes(params)
    ensures var n := Param(params, 0, 1); var d := if n == 0 then 1 else n;
      FeedAll(m, Sequence(params, 0x43)) == m.(col := if m.col + d > 50 then 50 else m.col + d, csi := [])
  {
    hide FeedAll, Sequence, Param, AttrOk, RowOk;
    Dispatched(m, params, 0x43);
  }

  /** ESC [ n D: left, not past the first column. */
  lemma CursorLeft(m: Model, params: seq<nat>)
    requires Ready(m) && ParamBytes(params)
    ensures var n := Param(params, 0, 1); var d := if n == 0 then 1 else n;
      FeedAll(m, Sequence(params, 0x44)) == m.(col := if m.col < d then 0 else m.col - d, csi := [])
  {
    hide FeedAll, Sequence, Param, AttrOk, RowOk;
    Dispatched(m, params, 0x44);
  }

  /** ESC [ r ; c H and ESC [ r ; c f: to row r and column c, counted from 1; numbers too small or too large give the first
      row or column, the last row, or the place behind the last column. */
  lemma CursorTo(m: Model, params: seq<nat>, final: nat)
    requires Ready(m) && ParamBytes(params) && (final == 0x48 || final == 0x66)
    ensures var r, c := Param(params, 0, 1), Param(params, 1, 1);
      FeedAll(m, Sequence(params, final)) ==
        m.(row := if r == 0 then 0 else if r > 24 then 23 else r - 1, col := if c == 0 then 0 else if c > 51 then 50 else c - 1, csi := [])
  {
    hide FeedAll, Sequence, Param, AttrOk, RowOk;
    Dispatched(m, params, final);
  }

  /** ESC [ c G: to column c of the same row. */
  lemma CursorToColumn(m: Model, params: seq<nat>)
    requires Ready(m) && ParamBytes(params)
    ensures var c := Param(params, 0, 1);
      FeedAll(m, Sequence(params, 0x47)) == m.(col := if c == 0 then 0 else if c > 51 then 50 else c - 1, csi := [])
  {
    hide FeedAll, Sequence, Param, AttrOk, RowOk;
    Dispatched(m, params, 0x47);
  }

  /** ESC [ r d: to row r of the same column. */
  lemma CursorToRow(m: Model, params: seq<nat>)
    requires Ready(m) && ParamBytes(params)
    ensures var r := Param(params, 0, 1);
      FeedAll(m, Sequence(params, 0x64)) == m.(row := if r == 0 then 0 else if r > 24 then 23 else r - 1, csi := [])
  {
    hide FeedAll, Sequence, Param, AttrOk, RowOk;
    Dispatched(m, params, 0x64);
  }

  // ---- erasing ----------------------------------------------------------------------------------------------------------------

  /** ESC [ n K: in the cursor's row the cells from the cursor on, with n = 1 those up to it, with n = 2 all of them become
      default blanks; behind the last column the last one counts as the cursor's.  Every other cell and the rest of the
      state stay. */
  lemma EraseLine(m: Model, params: seq<nat>)
    requires Ready(m) && ParamBytes(params)
    ensures var n, at := Param(params, 0, 0), if m.col == 50 then 49 else m.col;
      var m' := FeedAll(m, Sequence(params, 0x4b));
      && |m'.screen| == 24 && m' == m.(screen := m'.screen, csi := [])
      && (forall r :: 0 <= r < 24 ==> |m'.screen[r]| == 50)
      && (forall r, c :: 0 <= r < 24 && 0 <= c < 50 ==>
            m'.screen[r][c] == if r == m.row && (n == 2 || (n == 1 && c <= at) || (n != 1 && c >= at)) then Cell(0x20, 0x99)
                               else m.screen[r][c])
  {
    hide FeedAll, Sequence, Param, AttrOk, RowOk;
    Dispatched(m, params, 0x4b);
    RowsWide(m);
  }

  lemma RowsWide(m: Model)
    requires Ok(m)
    ensures forall r :: 0 <= r < 24 ==> |m.screen[r]| == 50
  {
    hide AttrOk;
  }

  /** ESC [ n J: the cells from the cursor to the end of the screen, with n from 1 to 3 the whole screen. */
  lemma EraseDisplay(m: Model, params: seq<nat>)
    requires Ready(m) && ParamBytes(params)
    ensures var n, at := Param(params, 0, 0), if m.col == 50 then 49 else m.col;
      var m' := FeedAll(m, Sequence(params, 0x4a));
      && |m'.screen| == 24 && m' == m.(screen := m'.screen, csi := [])
      && (forall r :: 0 <= r < 24 ==> |m'.screen[r]| == 50)
      && (forall r, c :: 0 <= r < 24 && 0 <= c < 50 ==>
            m'.screen[r][c] == if 1 <= n <= 3 || r > m.row || (r == m.row && c >= at) then Cell(0x20, 0x99) else m.screen[r][c])
  {
    hide FeedAll, Sequence, Param, AttrOk, RowOk;
    Dispatched(m, params, 0x4a);
    RowsWide(m);
  }

  // ---- attributes ---------------------------------------------------------------------------------------------------------------

  /** ESC [ n m for one code: 0 resets, 1 and 22 switch bold (bit 8), 7 and 27 inverse (bit 9), 30 to 37 and 39 set the
      foreground (low four bits), 40 to 47 and 49 the background (the next four); 9 is the default colour.  Everything else
      stays, and other codes change nothing. */
  lemma OneCode(m: Model, n: nat)
    requires Ready(m) && |Numeral(n)| <= 32
    ensures var m', a := FeedAll(m, Sequence(Numeral(n), 0x6d)), m.attr;
      && m' == m.(attr := m'.attr, csi := []) && 0 <= m'.attr < 1024
      && m'.attr % 16 == (if n == 0 || n == 39 then 9 else if 30 <= n <= 37 then n - 30 else a % 16)
      && m'.attr / 16 % 16 == (if n == 0 || n == 49 then 9 else if 40 <= n <= 47 then n - 40 else a / 16 % 16)
      && m'.attr / 256 % 2 == (if n == 0 || n == 22 then 0 else if n == 1 then 1 else a / 256 % 2)
      && m'.attr / 512 == (if n == 0 || n == 27 then 0 else if n == 7 then 1 else a / 512)
  {
    hide FeedAll, Sequence, Param, RowOk, Numeral, Sgr, Fg, Bg, Bold, Inverse, AttrOk, SgrAll, ParamCount, Fields, Dispatch;
    Dispatched(m, Numeral(n), 0x6d);
    CodesDispatched(m, Numeral(n));
    Parameters(n, [], 0, 0);
    OneParameter(m.attr, Numeral(n));
    SgrFields(m.attr, n);
    PackedFields(m.attr);
    PackedFields(Sgr(m.attr, n));
  }

  lemma PackedFields(a: nat)
    requires AttrOk(a)
    ensures a < 1024 && Fg(a) == a % 16 && Bg(a) == a / 16 % 16 && a / 256 % 2 < 2 && a / 512 < 2
    ensures Bold(a) == (a / 256 % 2 == 1) && Inverse(a) == (a / 512 == 1)
  {
  }

  lemma OneParameter(a: nat, params: seq<nat>)
    requires 0x3b !in params
    ensures SgrAll(a, params, ParamCount(params, 16)) == Sgr(a, Param(params, 0, 0))
  {
    hide Fields, Sgr, Param;
    OneField(params);
    assert SgrAll(a, params, 0) == a;
  }

  /** ESC [ m resets. */
  lemma NoCode(m: Model)
    requires Ready(m)
    ensures FeedAll(m, Sequence([], 0x6d)) == m.(attr := 0x99, csi := [])
  {
    hide FeedAll, Sequence, Param, RowOk, Numeral;
    Dispatched(m, [], 0x6d);
    Parameters(0, [], 0, 0);
    OneParameter(m.attr, []);
  }

  /** Several codes act one after the other, up to sixteen of them. */
  lemma Codes(m: Model, p: seq<nat>, q: seq<nat>)
    requires Ready(m) && ParamBytes(p + [0x3b] + q) && multiset(p)[0x3b] + multiset(q)[0x3b] + 2 <= 16
    ensures FeedAll(m, Sequence(p + [0x3b] + q, 0x6d)) == FeedAll(m, Sequence(p, 0x6d) + Sequence(q, 0x6d))
  {
    hide AttrOk, RowOk, Fields, Sequence, FeedAll, Param, Sgr, Dispatch, Ok;
    PartsOf(p, q);
    Dispatched(m, p + [0x3b] + q, 0x6d);
    Dispatched(m, p, 0x6d);
    CodesDispatched(m, p + [0x3b] + q);
    CodesDispatched(m, p);
    var half := FeedAll(m, Sequence(p, 0x6d));
    FeedConcat(m, Sequence(p, 0x6d), Sequence(q, 0x6d));
    Dispatched(half, q, 0x6d);
    CodesDispatched(half, q);
    FieldCount(p);
    FieldCount(q);
    FieldsSplit(p, q);
    CodesSplit(m.attr, p, q, |Fields(q)|);
  }

  lemma PartsOf(p: seq<nat>, q: seq<nat>)
    requires ParamBytes(p + [0x3b] + q)
    ensures ParamBytes(p) && ParamBytes(q)
  {
    var s := p + [0x3b] + q;
    assert forall i :: 0 <= i < |p| ==> p[i] == s[i];
    assert forall i :: 0 <= i < |q| ==> q[i] == s[|p| + 1 + i];
  }

  lemma CodesDispatched(m: Model, params: seq<nat>)
    requires Ok(m.(phase := Csi, csi := params))
    ensures Dispatch(m.(phase := Csi, csi := params), 0x6d) ==
      m.(phase := Csi, csi := params, attr := SgrAll(m.attr, params, ParamCount(params, 16)))
  {
    hide Fields, SgrAll;
  }

  /** One field more than semicolons. */
  lemma {:induction false} FieldCount(s: seq<nat>)
    ensures |Fields(s)| == multiset(s)[0x3b] + 1
  {
    if s != [] {
      var n := |s| - 1;
      FieldCount(s[..n]);
      assert s == s[..n] + [s[n]];
    }
  }

  /** The fields behind the semicolon are applied to what those before it leave. */
  lemma {:induction false} CodesSplit(a: nat, p: seq<nat>, q: seq<nat>, n: nat)
    requires n <= |Fields(q)|
    ensures SgrAll(a, p + [0x3b] + q, |Fields(p)| + n) == SgrAll(SgrAll(a, p, |Fields(p)|), q, n)
  {
    hide Fields, Sgr;
    FieldsSplit(p, q);
    if n == 0 {
      CodesFirst(a, p, q, |Fields(p)|);
    } else {
      CodesSplit(a, p, q, n - 1);
      assert Param(p + [0x3b] + q, |Fields(p)| + (n - 1), 0) == Param(q, n - 1, 0);
    }
  }

  lemma {:induction false} CodesFirst(a: nat, p: seq<nat>, q: seq<nat>, n: nat)
    requires n <= |Fields(p)|
    ensures SgrAll(a, p + [0x3b] + q, n) == SgrAll(a, p, n)
  {
    hide Fields, Sgr;
    if n > 0 {
      FieldsSplit(p, q);
      CodesFirst(a, p, q, n - 1);
      assert Param(p + [0x3b] + q, n - 1, 0) == Param(p, n - 1, 0);
    }
  }

  /** Any other final byte leaves everything as it was, whatever its parameters. */
  lemma OtherFinals(m: Model, params: seq<nat>, final: nat)
    requires Ready(m) && ParamBytes(params) && 0x40 <= final <= 0x7e
    requires final !in [0x41, 0x42, 0x43, 0x44, 0x47, 0x48, 0x4a, 0x4b, 0x64, 0x66, 0x6d]
    ensures FeedAll(m, Sequence(params, final)) == m.(csi := [])
  {
    hide FeedAll, Sequence, Param, AttrOk, RowOk;
    Dispatched(m, params, final);
  }

  // ---- single bytes ---------------------------------------------------------------------------------------------------------------

  /** Backspace, tab and carriage return move the cursor in its row; tab stops lie eight columns apart, the last column
      stands for those behind it. */
  lemma InRow(m: Model, stop: nat)
    requires Ready(m) && stop % 8 == 0 && m.col < stop <= m.col + 8
    ensures FeedAll(m, [0x08]) == m.(col := if m.col == 0 then 0 else m.col - 1)
    ensures FeedAll(m, [0x09]) == m.(col := if stop >= 50 then 49 else stop)
    ensures FeedAll(m, [0x0d]) == m.(col := 0)
  {
    hide AttrOk, RowOk, LineFeed, PutChar;
    TabStop(m.col, stop);
    FeedOne(m, 0x08);
    FeedOne(m, 0x09);
    FeedOne(m, 0x0d);
  }

  lemma TabStop(col: nat, stop: nat)
    requires stop % 8 == 0 && col < stop <= col + 8
    ensures stop == (col / 8 + 1) * 8
  {
  }

  /** Line feed, vertical tab and form feed go to the first column of the next row.  In the last row the screen moves up by
      one row: the top row goes to the history, which drops its oldest row beyond 488, and a blank row comes in below. */
  lemma NextRow(m: Model, b: nat)
    requires Ready(m) && (b == 0x0a || b == 0x0b || b == 0x0c)
    ensures var m' := FeedAll(m, [b]);
      if m.row < 23 then m' == m.(row := m.row + 1, col := 0)
      else
        && m' == m.(history := m'.history, screen := m'.screen, col := 0)
        && |m'.screen| == 24 && m'.screen[..23] == m.screen[1..] && m'.screen[23] == seq(50, _ => Cell(0x20, 0x99))
        && m'.history == if |m.history| < 488 then m.history + [m.screen[0]] else m.history[1..] + [m.screen[0]]
  {
    hide AttrOk, RowOk, BlankRow, PutChar;
    FeedOne(m, b);
    BlankIs();
  }

  lemma BlankIs()
    ensures BlankRow() == seq(50, _ => Cell(0x20, 0x99))
  {
  }

  /** A printable byte, or a question mark for the first byte of a longer character, goes into the cell at the cursor in the
      current attribute; behind the last column the cursor first goes to the next row. */
  lemma Printed(m: Model, b: nat)
    requires Ready(m) && (0x20 <= b <= 0x7e || (0x80 <= b < 256 && !(0x80 <= b < 0xc0)))
    ensures var w := if m.col == 50 then FeedAll(m, [0x0a]) else m;
      var ch := if b < 0x80 then b else 0x3f;
      && |w.screen| == 24 && 0 <= w.row < 24 && 0 <= w.col < 50 && |w.screen[w.row]| == 50
      && FeedAll(m, [b]) == w.(screen := w.screen[w.row := w.screen[w.row][w.col := Cell(ch, m.attr)]], col := w.col + 1)
  {
    hide AttrOk, RowOk, LineFeed;
    LineFeedOk(m);
    FeedOne(m, b);
    FeedOne(m, 0x0a);
    FedRow(m);
  }

  lemma FedRow(m: Model)
    requires Ok(m)
    ensures var w := LineFeed(m); |w.screen| == 24 && 0 <= w.row < 24 && w.col == 0 && |w.screen[w.row]| == 50 && w.attr == m.attr
    ensures forall r :: 0 <= r < 24 ==> |m.screen[r]| == 50
  {
    hide AttrOk;
  }

  /** All other bytes change nothing: bell, the other control bytes, and the later bytes of a longer character. */
  lemma Ignored(m: Model, b: nat)
    requires Ready(m) && b < 256
    requires (b < 0x20 && b !in [0x08, 0x09, 0x0a, 0x0b, 0x0c, 0x0d, 0x1b]) || 0x7f <= b < 0xc0
    ensures FeedAll(m, [b]) == m
  {
    hide AttrOk, RowOk, LineFeed, PutChar;
    FeedOne(m, b);
  }

  /** Escapes other than ESC [ take one byte and change nothing; an escape byte starts over, also inside a sequence. */
  lemma Escapes(m: Model, params: seq<nat>, b: nat, rest: seq<nat>)
    requires Ready(m) && ParamBytes(params) && b != 0x5b && b != 0x1b
    ensures FeedAll(m, [0x1b, b]) == m
    ensures FeedAll(m, [0x1b, 0x5b] + params + [0x1b, 0x5b] + rest) == FeedAll(m, [0x1b, 0x5b] + rest)
  {
    hide AttrOk, RowOk, LineFeed, PutChar, Dispatch, FeedAll;
    FeedConcat(m, [0x1b], [b]);
    assert [0x1b] + [b] == [0x1b, b] && [0x1b] + [0x5b] == [0x1b, 0x5b];
    FeedOne(m, 0x1b);
    FeedOne(m.(phase := Esc), b);
    Opens(m);
    var start, full := m.(phase := Csi, csi := []), m.(phase := Csi, csi := params);
    Collects(start, params);
    FeedConcat(m, [0x1b, 0x5b] + params + [0x1b, 0x5b], rest);
    FeedConcat(m, [0x1b, 0x5b], rest);
    FeedConcat(m, [0x1b, 0x5b] + params, [0x1b, 0x5b]);
    FeedConcat(m, [0x1b, 0x5b], params);
    FeedConcat(full, [0x1b], [0x5b]);
    FeedOne(full, 0x1b);
    FeedOne(full.(phase := Esc, csi := []), 0x5b);
  }

  /** Of a longer parameter string the first 32 bytes count. */
  lemma Overlong(m: Model, params: seq<nat>, more: seq<nat>, final: nat)
    requires Ready(m) && ParamBytes(params) && |params| == 32 && 0x40 <= final <= 0x7e
    requires forall i :: 0 <= i < |more| ==> !(0x40 <= more[i] <= 0x7e) && more[i] != 0x1b
    ensures FeedAll(m, Sequence(params + more, final)) == FeedAll(m, Sequence(params, final))
  {
    hide AttrOk, RowOk, Dispatch, FeedAll, Step;
    var start, full := m.(phase := Csi, csi := []), m.(phase := Csi, csi := params);
    Opens(m);
    Collects(start, params);
    Absorbs(full, more);
    assert Sequence(params + more, final) == ([0x1b, 0x5b] + params + more) + [final];
    FeedConcat(m, [0x1b, 0x5b] + params + more, [final]);
    FeedConcat(m, [0x1b, 0x5b] + params, more);
    FeedConcat(m, [0x1b, 0x5b] + params, [final]);
    FeedConcat(m, [0x1b, 0x5b], params);
  }

  lemma {:induction false} Absorbs(m: Model, more: seq<nat>)
    requires Ok(m) && m.phase == Csi && |m.csi| == 32
    requires forall i :: 0 <= i < |more| ==> !(0x40 <= more[i] <= 0x7e) && more[i] != 0x1b
    ensures FeedAll(m, more) == m
  {
    hide AttrOk, RowOk, Dispatch, LineFeed, PutChar;
    if more != [] {
      Absorbs(m, more[..|more| - 1]);
    }
  }
}
