/** The agent board as values: rows in insertion order, shown blocked rows first; a cursor tracked by session id; an
    approval in flight. */
module BoardModel {

  const CAP := 16
  const COOLDOWN := 120
  const NAME_CAP := 32
  const KIND_CAP := 16
  const STATUS_CAP := 20
  const TITLE_CAP := 40
  const WORKSPACE_CAP := 24

  datatype Row = Row(id: nat, name: string, kind: string, status: string, title: string, workspace: string)

  /** A bounded copy: at most cap - 1 characters. */
  function Bounded(s: string, cap: nat): (r: string)
    requires cap > 0
    ensures |r| < cap && r <= s && (|s| < cap ==> r == s)
  {
    if |s| < cap then s else s[..cap - 1]
  }

  /** The strings as they were given; a missing one is empty. */
  datatype Fields = Fields(id: nat, name: string, kind: string, status: string, title: string, workspace: string)

  /** The bounded copies a row keeps. */
  function MakeRow(f: Fields): Row {
    Row(f.id, Bounded(f.name, NAME_CAP), Bounded(f.kind, KIND_CAP), Bounded(f.status, STATUS_CAP),
        Bounded(f.title, TITLE_CAP), Bounded(f.workspace, WORKSPACE_CAP))
  }

  /** Every string fits its slot. */
  predicate Fits(r: Row) {
    |r.name| < NAME_CAP && |r.kind| < KIND_CAP && |r.status| < STATUS_CAP && |r.title| < TITLE_CAP && |r.workspace| < WORKSPACE_CAP
  }

  predicate AllFit(rows: seq<Row>) {
    forall k :: 0 <= k < |rows| ==> Fits(rows[k])
  }

  predicate Blocked(r: Row) { r.status == "blocked" }

  // ---- blocked first ------------------------------------------------------------------------------------------------------

  /** The indices below n of rows that are blocked or not, ascending. */
  function Picks(rows: seq<Row>, blocked: bool, n: nat): (p: seq<nat>)
    requires n <= |rows|
    ensures forall k :: 0 <= k < |p| ==> p[k] < n
  {
    if n == 0 then []
    else Picks(rows, blocked, n - 1) + if Blocked(rows[n - 1]) == blocked then [n - 1] else []
  }

  lemma {:induction false} PicksCount(rows: seq<Row>, n: nat)
    requires n <= |rows|
    ensures |Picks(rows, true, n)| + |Picks(rows, false, n)| == n
  {
    if n > 0 {
      PicksCount(rows, n - 1);
    }
  }

  function OrderOf(rows: seq<Row>): (o: seq<nat>)
    ensures |o| == |rows| && forall k :: 0 <= k < |o| ==> o[k] < |rows|
  {
    PicksCount(rows, |rows|);
    Picks(rows, true, |rows|) + Picks(rows, false, |rows|)
  }

  /** The rows with the given state, in their order. */
  function Filter(rows: seq<Row>, blocked: bool): seq<Row> {
    if rows == [] then []
    else Filter(rows[..|rows| - 1], blocked) + if Blocked(rows[|rows| - 1]) == blocked then [rows[|rows| - 1]] else []
  }

  /** What the board shows from top to bottom. */
  function Sorted(rows: seq<Row>): (s: seq<Row>)
    ensures |s| == |rows| && forall k :: 0 <= k < |s| ==> s[k] == rows[OrderOf(rows)[k]]
  {
    seq(|rows|, k requires 0 <= k < |rows| => rows[OrderOf(rows)[k]])
  }

  lemma {:induction false} PicksFilter(rows: seq<Row>, blocked: bool, n: nat)
    requires n <= |rows|
    ensures |Picks(rows, blocked, n)| == |Filter(rows[..n], blocked)|
    ensures forall k :: 0 <= k < |Picks(rows, blocked, n)| ==> rows[Picks(rows, blocked, n)[k]] == Filter(rows[..n], blocked)[k]
  {
    if n > 0 {
      PicksFilter(rows, blocked, n - 1);
      assert rows[..n][..n - 1] == rows[..n - 1];
    }
  }

  /** The index array denotes the stable partition: the blocked rows, then the others, each in insertion order. */
  lemma SortedIsPartition(rows: seq<Row>)
    ensures Sorted(rows) == Filter(rows, true) + Filter(rows, false)
  {
    PicksFilter(rows, true, |rows|);
    PicksFilter(rows, false, |rows|);
    PicksCount(rows, |rows|);
    assert rows[..|rows|] == rows;
  }

  function Without<T>(s: seq<T>, i: nat): (r: seq<T>)
    requires i < |s|
    ensures |r| == |s| - 1 && forall k :: 0 <= k < |r| ==> r[k] == if k < i then s[k] else s[k + 1]
  {
    s[..i] + s[i + 1..]
  }

  lemma {:induction false} FilterConcat(a: seq<Row>, b: seq<Row>, blocked: bool)
    ensures Filter(a + b, blocked) == Filter(a, blocked) + Filter(b, blocked)
  {
    if b == [] {
      assert a + b == a;
    } else {
      assert (a + b)[..|a + b| - 1] == a + b[..|b| - 1];
      FilterConcat(a, b[..|b| - 1], blocked);
    }
  }

  lemma FilterOne(r: Row, blocked: bool)
    ensures Filter([r], blocked) == if Blocked(r) == blocked then [r] else []
  {
    assert [r][..0] == [];
  }

  /** Where a row is shown: after the rows of its own state before it, and after all blocked rows if it is not blocked. */
  function ShownAt(rows: seq<Row>, i: nat): nat
    requires i < |rows|
  {
    |Filter(rows[..i], Blocked(rows[i]))| + if Blocked(rows[i]) then 0 else |Filter(rows, true)|
  }

  lemma SplitAt(rows: seq<Row>, i: nat, blocked: bool)
    requires i < |rows|
    ensures Blocked(rows[i]) == blocked ==>
      Filter(rows, blocked) == Filter(rows[..i], blocked) + [rows[i]] + Filter(rows[i + 1..], blocked)
    ensures Blocked(rows[i]) != blocked ==> Filter(rows, blocked) == Filter(Without(rows, i), blocked)
    ensures Filter(Without(rows, i), blocked) == Filter(rows[..i], blocked) + Filter(rows[i + 1..], blocked)
  {
    hide Filter;
    assert rows == (rows[..i] + [rows[i]]) + rows[i + 1..];
    FilterConcat(rows[..i] + [rows[i]], rows[i + 1..], blocked);
    FilterConcat(rows[..i], [rows[i]], blocked);
    FilterOne(rows[i], blocked);
    FilterConcat(rows[..i], rows[i + 1..], blocked);
  }

  /** Removing a row from the table removes it from the view and leaves the rest in order. */
  lemma RemovalCommutes(rows: seq<Row>, i: nat)
    requires i < |rows|
    ensures ShownAt(rows, i) < |rows| && Sorted(rows)[ShownAt(rows, i)] == rows[i]
    ensures Sorted(Without(rows, i)) == Without(Sorted(rows), ShownAt(rows, i))
  {
    hide Filter, Sorted, Without, Blocked;
    SortedIsPartition(rows);
    SortedIsPartition(Without(rows, i));
    SplitAt(rows, i, true);
    SplitAt(rows, i, false);
    SizesAdd(rows);
    var at := ShownAt(rows, i);
    var t, f := Filter(rows, true), Filter(rows, false);
    if Blocked(rows[i]) {
      WithoutMiddle(Filter(rows[..i], true), rows[i], Filter(rows[i + 1..], true));
      WithoutConcat(t, f, at);
    } else {
      WithoutMiddle(Filter(rows[..i], false), rows[i], Filter(rows[i + 1..], false));
      WithoutConcat(t, f, at);
    }
  }

  lemma WithoutMiddle(a: seq<Row>, r: Row, b: seq<Row>)
    ensures (a + [r] + b)[|a|] == r && Without(a + [r] + b, |a|) == a + b
  {
  }

  lemma WithoutConcat(a: seq<Row>, b: seq<Row>, i: nat)
    requires i < |a + b|
    ensures Without(a + b, i) == if i < |a| then Without(a, i) + b else a + Without(b, i - |a|)
  {
  }

  lemma {:induction false} SizesAdd(rows: seq<Row>)
    ensures |Filter(rows, true)| + |Filter(rows, false)| == |rows|
  {
    if rows != [] {
      SizesAdd(rows[..|rows| - 1]);
    }
  }

  // ---- the board --------------------------------------------------------------------------------------------------------------

  /** cursor and inflight are session ids, 0 for none; since is the time of the last arm. */
  datatype Board = Board(rows: seq<Row>, cursor: nat, scroll: int, inflight: nat, since: nat)

  const EMPTY := Board([], 0, 0, 0, 0)

  /** The first place of an id, or -1. */
  function Find(rows: seq<Row>, id: nat): (i: int)
    ensures -1 <= i < |rows|
    ensures i >= 0 ==> rows[i].id == id && forall k :: 0 <= k < i ==> rows[k].id != id
    ensures i < 0 ==> forall k :: 0 <= k < |rows| ==> rows[k].id != id
  {
    if rows == [] then -1
    else if rows[0].id == id then 0
    else
      var i := Find(rows[1..], id);
      if i < 0 then -1 else i + 1
  }

  ghost predicate UniqueIds(rows: seq<Row>) {
    forall i, j :: 0 <= i < j < |rows| ==> rows[i].id != rows[j].id
  }

  ghost predicate Ok(b: Board) {
    |b.rows| <= CAP && UniqueIds(b.rows) && AllFit(b.rows) && (b.inflight != 0 ==> Find(b.rows, b.inflight) >= 0)
  }

  /** The place of the cursor in the view, or -1. */
  function CursorPos(b: Board): (p: int)
    ensures -1 <= p < |b.rows|
  {
    if b.cursor == 0 then -1 else Find(Sorted(b.rows), b.cursor)
  }

  function Clamp(p: int, n: nat): (r: nat)
    requires n > 0
    ensures r < n
  {
    if p < 0 then 0 else if p >= n then n - 1 else p
  }

  /** A cursor on the removed row goes to the row that takes its place in the view, or to the new last row. */
  function RemoveIndex(b: Board, i: nat): Board
    requires i < |b.rows|
  {
    var id, rows := b.rows[i].id, Without(b.rows, i);
    var cursor :=
      if b.cursor != id then b.cursor
      else if rows == [] then 0
      else Sorted(rows)[Clamp(CursorPos(b), |rows|)].id;
    Board(rows, cursor, b.scroll, if b.inflight == id then 0 else b.inflight, b.since)
  }

  /** The oldest row that is not blocked, or -1. */
  function Victim(rows: seq<Row>): (i: int)
    ensures -1 <= i < |rows|
    ensures i >= 0 ==> !Blocked(rows[i]) && forall k :: 0 <= k < i ==> Blocked(rows[k])
    ensures i < 0 ==> forall k :: 0 <= k < |rows| ==> Blocked(rows[k])
  {
    if rows == [] then -1
    else if !Blocked(rows[0]) then 0
    else
      var i := Victim(rows[1..]);
      if i < 0 then -1 else i + 1
  }

  /** Room for one more row, made by evicting one that is not blocked; None if all are. */
  function WithRoom(b: Board): (r: (bool, Board))
  {
    if |b.rows| < CAP then (true, b)
    else if Victim(b.rows) < 0 then (false, b)
    else (true, RemoveIndex(b, Victim(b.rows)))
  }

  /** Updates the row of that id, or inserts it.  `status` is the status as given; only a difference from the stored
      one ends an approval in flight. */
  function Stored(b: Board, row: Row, status: string): (r: (int, Board)) {
    var i := Find(b.rows, row.id);
    if i >= 0 then
      var changed := b.rows[i].status != status;
      (0, b.(rows := b.rows[i := row], inflight := if b.inflight == row.id && changed then 0 else b.inflight))
    else if !WithRoom(b).0 then (-1, b)
    else
      var room := WithRoom(b).1;
      (0, room.(rows := room.rows + [row],
                inflight := if room.inflight == row.id then 0 else room.inflight,
                cursor := if room.cursor == 0 then row.id else room.cursor))
  }

  /** An upsert stores bounded copies, but compares the status it was given. */
  function Upsert(b: Board, f: Fields): (r: (int, Board)) {
    Stored(b, MakeRow(f), f.status)
  }

  function Remove(b: Board, id: nat): (r: (int, Board)) {
    if Find(b.rows, id) < 0 then (-1, b) else (0, RemoveIndex(b, Find(b.rows, id)))
  }

  function CursorMove(b: Board, delta: int): Board {
    if b.rows == [] then b.(cursor := 0)
    else
      var p := CursorPos(b);
      b.(cursor := Sorted(b.rows)[Clamp(if p < 0 then 0 else p + delta, |b.rows|)].id)
  }

  const ALLOWLIST: seq<string> := ["codex", "cursor", "claude", "omp", "opencode"]

  /** Ticks are 32-bit numbers, and so is their difference. */
  const TICKS := 0x1_0000_0000

  predicate Inflight(b: Board, now: nat) {
    b.inflight != 0 && (now - b.since) % TICKS < COOLDOWN
  }

  /** The cursor's row is blocked, of a known kind, and has no approval of its own in flight. */
  predicate Enabled(b: Board, now: nat) {
    var p := CursorPos(b);
    && p >= 0
    && var r := Sorted(b.rows)[p];
       Blocked(r) && r.kind in ALLOWLIST && !(Inflight(b, now) && b.inflight == r.id)
  }

  function Arm(b: Board, now: nat): (r: (bool, Board)) {
    if Enabled(b, now) then (true, b.(inflight := b.cursor, since := now % TICKS)) else (false, b)
  }

  function Viewport(b: Board, visible: int): (r: (int, Board)) {
    if visible <= 0 then (0, b.(scroll := 0))
    else
      var cur := CursorPos(b);
      var s := if cur < 0 then b.scroll else if cur < b.scroll then cur else if cur >= b.scroll + visible then cur - visible + 1 else b.scroll;
      var maxtop := if |b.rows| < visible then 0 else |b.rows| - visible;
      var t := if s > maxtop then maxtop else s;
      var u := if t < 0 then 0 else t;
      (u, b.(scroll := u))
  }

  // ---- what the operations keep -------------------------------------------------------------------------------------------------

  lemma FindUnique(rows: seq<Row>, i: nat)
    requires UniqueIds(rows) && i < |rows|
    ensures Find(rows, rows[i].id) == i
  {
  }

  lemma SortedUnique(rows: seq<Row>)
    requires UniqueIds(rows)
    ensures UniqueIds(Sorted(rows))
  {
    hide Sorted, OrderOf;
    forall i, j | 0 <= i < j < |rows| ensures Sorted(rows)[i].id != Sorted(rows)[j].id {
      OrderDistinct(rows, i, j);
    }
  }

  lemma {:induction false} PicksAscend(rows: seq<Row>, blocked: bool, n: nat, j: nat, k: nat)
    requires n <= |rows| && j < k < |Picks(rows, blocked, n)|
    ensures Picks(rows, blocked, n)[j] < Picks(rows, blocked, n)[k]
  {
    if n > 0 && k < |Picks(rows, blocked, n - 1)| {
      PicksAscend(rows, blocked, n - 1, j, k);
    }
  }

  lemma {:induction false} PicksState(rows: seq<Row>, blocked: bool, n: nat, k: nat)
    requires n <= |rows| && k < |Picks(rows, blocked, n)|
    ensures Blocked(rows[Picks(rows, blocked, n)[k]]) == blocked
  {
    if n > 0 && k < |Picks(rows, blocked, n - 1)| {
      PicksState(rows, blocked, n - 1, k);
    }
  }

  /** No row is shown twice. */
  lemma OrderDistinct(rows: seq<Row>, j: nat, k: nat)
    requires j < k < |rows|
    ensures OrderOf(rows)[j] != OrderOf(rows)[k]
  {
    PicksCount(rows, |rows|);
    var t, f := Picks(rows, true, |rows|), Picks(rows, false, |rows|);
    if k < |t| {
      PicksAscend(rows, true, |rows|, j, k);
    } else if j >= |t| {
      PicksAscend(rows, false, |rows|, j - |t|, k - |t|);
    } else {
      PicksState(rows, true, |rows|, j);
      PicksState(rows, false, |rows|, k - |t|);
    }
  }

  /** Removing a row: the view loses that row, a cursor elsewhere stays, a cursor on it goes to its old successor or,
      from the last row, to its old predecessor. */
  lemma RemovalMovesCursor(b: Board, i: nat)
    requires Ok(b) && i < |b.rows|
    ensures var p, b' := ShownAt(b.rows, i), RemoveIndex(b, i);
      && p < |b.rows| && Sorted(b'.rows) == Without(Sorted(b.rows), p)
      && (b.cursor != b.rows[i].id ==> b'.cursor == b.cursor)
      && (b.cursor == b.rows[i].id && b.cursor != 0 ==>
            CursorPos(b) == p
            && b'.cursor == if |b.rows| == 1 then 0
                            else if p + 1 < |b.rows| then Sorted(b.rows)[p + 1].id else Sorted(b.rows)[p - 1].id)
  {
    hide Sorted, Filter, ShownAt;
    RemovalCommutes(b.rows, i);
    SortedUnique(b.rows);
    FindUnique(Sorted(b.rows), ShownAt(b.rows, i));
  }

  lemma RemoveIndexOk(b: Board, i: nat)
    requires Ok(b) && i < |b.rows|
    ensures Ok(RemoveIndex(b, i))
  {
    hide Sorted;
    if b.inflight != 0 && b.inflight != b.rows[i].id {
      var k := Find(b.rows, b.inflight);
      assert Without(b.rows, i)[if k < i then k else k - 1].id == b.inflight;
    }
  }

  /** An upsert keeps the board in order, refuses only when sixteen blocked rows fill it, and never evicts a blocked row. */
  lemma StoredKeeps(b: Board, row: Row, status: string)
    requires Ok(b) && Fits(row)
    ensures var (rc, b') := Stored(b, row, status);
      && Ok(b')
      && (rc == 0 || rc == -1) && (rc == -1 ==> b' == b && |b.rows| == CAP && forall r :: r in b.rows ==> Blocked(r) && r.id != row.id)
      && (rc == 0 ==> row in b'.rows)
      && forall r :: r in b.rows && r.id != row.id && Blocked(r) ==> r in b'.rows
  {
    hide Sorted;
    var i := Find(b.rows, row.id);
    if i >= 0 {
      UpdateKeeps(b, i, row, status);
    } else if WithRoom(b).0 {
      RoomKeeps(b);
      InsertKeeps(b, row, status);
    }
  }

  /** The same of an upsert; the row it stores is the bounded copy of what was given. */
  lemma UpsertKeeps(b: Board, f: Fields)
    requires Ok(b)
    ensures var (rc, b') := Upsert(b, f);
      && Ok(b')
      && (rc == 0 || rc == -1) && (rc == -1 ==> b' == b && |b.rows| == CAP && forall r :: r in b.rows ==> Blocked(r) && r.id != f.id)
      && (rc == 0 ==> MakeRow(f) in b'.rows)
      && forall r :: r in b.rows && r.id != f.id && Blocked(r) ==> r in b'.rows
  {
    hide Stored, Ok;
    StoredKeeps(b, MakeRow(f), f.status);
  }

  /** Sending the same row again changes nothing at all, whatever its length: a status too long to be stored whole counts
      as changed each time, but then the first time already ended an approval in flight. */
  lemma ReemitKeeps(b: Board, f: Fields)
    requires Ok(b) && Upsert(b, f).0 == 0
    ensures Upsert(Upsert(b, f).1, f) == (0, Upsert(b, f).1)
  {
    hide Sorted, UniqueIds, RemoveIndex;
    var row := MakeRow(f);
    StoredKeeps(b, row, f.status);
    var rows := Upsert(b, f).1.rows;
    StoredUnique(rows, row);
    var i := Find(rows, f.id);
    assert rows[i := row] == rows;
  }

  lemma StoredUnique(rows: seq<Row>, row: Row)
    requires UniqueIds(rows) && row in rows
    ensures Find(rows, row.id) >= 0 && rows[Find(rows, row.id)] == row
  {
    var k :| 0 <= k < |rows| && rows[k] == row;
    FindUnique(rows, k);
  }

  lemma UpdateKeeps(b: Board, i: nat, row: Row, status: string)
    requires Ok(b) && Fits(row) && i < |b.rows| && Find(b.rows, row.id) == i
    ensures Ok(Stored(b, row, status).1)
    ensures row in b.rows[i := row] && forall r :: r in b.rows && r.id != row.id ==> r in b.rows[i := row]
  {
    var rows := b.rows[i := row];
    assert rows[i] == row;
    forall r | r in b.rows && r.id != row.id ensures r in rows {
      var k :| 0 <= k < |b.rows| && b.rows[k] == r;
      assert rows[k] == r;
    }
    if b.inflight != 0 {
      var k := Find(b.rows, b.inflight);
      assert rows[k].id == b.inflight;
    }
  }

  /** Making room costs at most one row, and that one is not blocked. */
  lemma RoomKeeps(b: Board)
    requires Ok(b) && WithRoom(b).0
    ensures var b' := WithRoom(b).1;
      && Ok(b') && |b'.rows| < CAP && (forall r :: r in b'.rows ==> r in b.rows)
      && forall r :: r in b.rows && Blocked(r) ==> r in b'.rows
  {
    hide Sorted;
    if |b.rows| >= CAP {
      var v := Victim(b.rows);
      RemoveIndexOk(b, v);
      var rows := Without(b.rows, v);
      forall r | r in b.rows && Blocked(r) ensures r in rows {
        var k :| 0 <= k < |b.rows| && b.rows[k] == r;
        assert rows[if k < v then k else k - 1] == r;
      }
    }
  }

  lemma InsertKeeps(b: Board, row: Row, status: string)
    requires Ok(b) && Fits(row) && Find(b.rows, row.id) < 0 && WithRoom(b).0
    requires var b' := WithRoom(b).1; Ok(b') && |b'.rows| < CAP && forall r :: r in b'.rows ==> r in b.rows
    ensures Ok(Stored(b, row, status).1) && row in Stored(b, row, status).1.rows
    ensures forall r :: r in WithRoom(b).1.rows ==> r in Stored(b, row, status).1.rows
  {
    hide WithRoom, Sorted;
    var room := WithRoom(b).1;
    var rows := room.rows + [row];
    assert rows[|room.rows|] == row;
    forall k | 0 <= k < |room.rows| ensures room.rows[k].id != row.id {
      assert room.rows[k] in room.rows;
    }
    if room.inflight != 0 {
      assert rows[Find(room.rows, room.inflight)].id == room.inflight;
    }
  }

  // ---- runs: exactly once under a double tap ----------------------------------------------------------------------------------------

  datatype Event =
    | Put(fields: Fields)
    | Delete(id: nat)
    | Select(id: nat)
    | Move(delta: int)
    | Scroll(visible: int)
    | Tap(now: nat)
    | Reset

  function Apply(b: Board, e: Event): Board {
    match e
    case Put(fields) => Upsert(b, fields).1
    case Delete(id) => Remove(b, id).1
    case Select(id) => b.(cursor := id)
    case Move(delta) => CursorMove(b, delta)
    case Scroll(visible) => Viewport(b, visible).1
    case Tap(now) => Arm(b, now).1
    case Reset => EMPTY
  }

  ghost predicate Run(boards: seq<Board>, events: seq<Event>) {
    && |boards| == |events| + 1 && Ok(boards[0])
    && (forall k :: 0 <= k < |events| ==> boards[k + 1] == Apply(boards[k], events[k]))
    && (forall k, l :: 0 <= k < l < |events| && events[k].Tap? && events[l].Tap? ==> events[k].now <= events[l].now)
  }

  /** A tap that armed an approval for session s. */
  predicate Armed(b: Board, e: Event, s: nat) {
    e.Tap? && b.cursor == s && Enabled(b, e.now)
  }

  /** What may end an approval in flight for s: a status change of its row, its removal or eviction, a reset, or an
      approval armed for another session. */
  predicate Ends(b: Board, e: Event, s: nat) {
    || (e.Put? && e.fields.id == s && Find(b.rows, s) >= 0 && b.rows[Find(b.rows, s)].status != e.fields.status)
    || (Find(b.rows, s) >= 0 && Find(Apply(b, e).rows, s) < 0)
    || e.Reset?
    || (e.Tap? && Enabled(b, e.now) && b.cursor != s)
  }

  lemma ApplyOk(b: Board, e: Event)
    requires Ok(b)
    ensures Ok(Apply(b, e))
  {
    hide Sorted, Victim, UniqueIds;
    match e
    case Put(fields) => UpsertKeeps(b, fields);
    case Delete(id) =>
      if Find(b.rows, id) >= 0 {
        RemoveIndexOk(b, Find(b.rows, id));
      }
    case Tap(now) =>
      if Enabled(b, now) {
        CursorRow(b);
      }
    case Reset => assert UniqueIds([]) by { NoRowsUnique(); }
    case _ =>
  }

  lemma NoRowsUnique()
    ensures UniqueIds([])
  {
  }

  lemma CursorRow(b: Board)
    requires CursorPos(b) >= 0
    ensures b.cursor != 0 && Find(b.rows, b.cursor) >= 0
  {
    var p := CursorPos(b);
    assert b.rows[OrderOf(b.rows)[p]].id == b.cursor;
  }

  /** Nothing else touches it. */
  lemma StaysInFlight(b: Board, e: Event, s: nat, t: nat)
    requires Ok(b) && s != 0 && b.inflight == s && b.since == t % TICKS && !Ends(b, e, s)
    requires e.Tap? ==> t <= e.now < t + COOLDOWN
    ensures Apply(b, e).inflight == s && Apply(b, e).since == t % TICKS
  {
    hide Sorted, UniqueIds;
    match e
    case Put(fields) =>
      if Find(b.rows, fields.id) < 0 && WithRoom(b).0 && |b.rows| >= CAP && b.rows[Victim(b.rows)].id == s {
        EvictedGone(b, MakeRow(fields), fields.status, s);
      }
    case Delete(id) =>
      if Find(b.rows, id) >= 0 && b.rows[Find(b.rows, id)].id == s {
        GoneAfter(b, Find(b.rows, id));
      }
    case Tap(now) =>
      if b.cursor == s {
        NotWhileInFlight(b, t, now);
      }
    case _ =>
  }

  lemma GoneAfter(b: Board, i: nat)
    requires Ok(b) && i < |b.rows|
    ensures Find(RemoveIndex(b, i).rows, b.rows[i].id) < 0
  {
    hide Sorted;
  }

  lemma EvictedGone(b: Board, row: Row, status: string, s: nat)
    requires Ok(b) && Find(b.rows, row.id) < 0 && |b.rows| >= CAP && Victim(b.rows) >= 0 && Find(b.rows, s) >= 0
    requires b.rows[Victim(b.rows)].id == s
    ensures Find(Stored(b, row, status).1.rows, s) < 0
  {
    hide Sorted;
    GoneAfter(b, Victim(b.rows));
    var room := RemoveIndex(b, Victim(b.rows));
    var rows := Stored(b, row, status).1.rows;
    assert rows == room.rows + [row];
    assert row.id != s;
    forall k | 0 <= k < |rows| ensures rows[k].id != s {
      if k < |room.rows| {
        assert rows[k] == room.rows[k];
      }
    }
  }

  lemma {:induction false} RunOk(boards: seq<Board>, events: seq<Event>, k: nat)
    requires Run(boards, events) && k < |boards|
    ensures Ok(boards[k])
  {
    hide Ok, Apply;
    if k > 0 {
      RunOk(boards, events, k - 1);
      ApplyOk(boards[k - 1], events[k - 1]);
    }
  }

  lemma {:induction false} InFlightUntil(boards: seq<Board>, events: seq<Event>, i: nat, j: nat, m: nat, s: nat)
    requires Run(boards, events) && i < j < |events| && i < m <= j && s != 0
    requires Armed(boards[i], events[i], s) && events[j].Tap? && events[j].now < events[i].now + COOLDOWN
    requires forall k :: i < k < j ==> !Ends(boards[k], events[k], s)
    ensures boards[m].inflight == s && boards[m].since == events[i].now % TICKS
  {
    hide Ok, Ends;
    if m == i + 1 {
      hide Enabled;
      assert boards[m] == Apply(boards[i], events[i]);
    } else {
      InFlightUntil(boards, events, i, j, m - 1, s);
      RunOk(boards, events, m - 1);
      hide Apply, Enabled;
      StaysInFlight(boards[m - 1], events[m - 1], s, events[i].now);
    }
  }

  /** Two approvals armed for one session less than 120 ticks apart always have one of those events between them. */
  lemma ArmedOnce(boards: seq<Board>, events: seq<Event>, i: nat, j: nat, s: nat)
    requires Run(boards, events) && i < j < |events| && s != 0
    requires Armed(boards[i], events[i], s) && Armed(boards[j], events[j], s) && events[j].now < events[i].now + COOLDOWN
    ensures exists k :: i < k < j && Ends(boards[k], events[k], s)
  {
    hide Ok, Ends, Apply, Sorted;
    if forall k :: i < k < j ==> !Ends(boards[k], events[k], s) {
      InFlightUntil(boards, events, i, j, j, s);
      NotWhileInFlight(boards[j], events[i].now, events[j].now);
    }
  }

  /** The clock's difference is the time that has passed, also across a wrap-around. */
  lemma Elapsed(t: nat, now: nat)
    requires t <= now < t + COOLDOWN
    ensures (now - t % TICKS) % TICKS == now - t
  {
    assert now - t % TICKS == (now - t) + TICKS * (t / TICKS);
  }

  lemma NotWhileInFlight(b: Board, t: nat, now: nat)
    requires b.inflight != 0 && b.cursor == b.inflight && b.since == t % TICKS && t <= now < t + COOLDOWN
    ensures !Enabled(b, now)
  {
    Elapsed(t, now);
    if CursorPos(b) >= 0 {
      assert Sorted(b.rows)[CursorPos(b)].id == b.cursor;
    }
  }
}
