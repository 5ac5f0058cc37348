/** The board as the device keeps it: a packed table and a derived index array, changed in place. */
module Board {
  import opened BoardModel

  const ZERO := Row(0, "", "", "", "", "")

  class AgentBoard {
    const rows: array<Row>
    const order: array<nat>
    var count: nat
    var cursor: nat
    var scroll: int
    var inflight: nat
    var since: nat

    ghost function Abs(): BoardModel.Board
      requires count <= rows.Length
      reads this, rows
    {
      BoardModel.Board(rows[..count], cursor, scroll, inflight, since)
    }

    ghost predicate Shaped()
      reads this
    {
      rows.Length == CAP && order.Length == CAP && count <= CAP
    }

    /** The index array is the blocked-first order of the table. */
    ghost predicate Valid()
      reads this, rows, order
    {
      Shaped() && Ok(Abs()) && order[..count] == OrderOf(rows[..count])
    }

    constructor ()
      ensures Valid() && Abs() == EMPTY && fresh(rows) && fresh(order)
    {
      rows := new Row[CAP](_ => ZERO);
      order := new nat[CAP](_ => 0);
      count, cursor, scroll, inflight, since := 0, 0, 0, 0, 0;
      new;
      assert rows[..0] == [] && order[..0] == [];
      NoRowsUnique();
    }

    /** Rebuilds the index array: blocked rows, then the others, each in insertion order. */
    method Reorder()
      requires Shaped()
      modifies order
      ensures order[..count] == OrderOf(rows[..count])
    {
      PicksCount(rows[..count], count);
      var n := Place(0, true);
      n := Place(n, false);
    }

    /** Appends the indices of the rows that are blocked, or are not. */
    method Place(start: nat, blocked: bool) returns (n: nat)
      requires Shaped() && start + |Picks(rows[..count], blocked, count)| <= count
      modifies order
      ensures n == start + |Picks(rows[..count], blocked, count)|
      ensures order[..start] == old(order[..start]) && order[start..n] == Picks(rows[..count], blocked, count)
    {
      hide Picks;
      ghost var table, before := rows[..count], order[..start];
      n := start;
      NoPicks(table, blocked);
      for i := 0 to count
        invariant n == start + |Picks(table, blocked, i)| <= count
        invariant order[..start] == before && order[start..n] == Picks(table, blocked, i)
      {
        PicksMonotone(table, blocked, i + 1, count);
        NextPick(table, blocked, i);
        if (rows[i].status == "blocked") == blocked {
          order[n] := i;
          n := n + 1;
        }
      }
    }

    /** The row at a place of the view. */
    function RowAt(k: nat): (r: Row)
      requires Valid() && k < count
      reads this, rows, order
      ensures r == Sorted(rows[..count])[k]
    {
      assert order[..count][k] == OrderOf(rows[..count])[k];
      rows[order[k]]
    }

    method FindRow(id: nat) returns (i: int)
      requires Shaped()
      ensures i == Find(rows[..count], id)
    {
      var k := 0;
      while k < count
        invariant k <= count && forall j :: 0 <= j < k ==> rows[j].id != id
      {
        if rows[k].id == id {
          FirstPlace(rows[..count], id, k);
          return k;
        }
        k := k + 1;
      }
      i := -1;
    }

    method CursorPosition() returns (p: int)
      requires Valid()
      ensures p == CursorPos(Abs())
    {
      hide OrderOf, Sorted, Ok;
      if cursor == 0 {
        return -1;
      }
      var k := 0;
      while k < count
        invariant k <= count && forall j :: 0 <= j < k ==> Sorted(rows[..count])[j].id != cursor
      {
        if RowAt(k).id == cursor {
          FirstPlace(Sorted(rows[..count]), cursor, k);
          return k;
        }
        k := k + 1;
      }
      p := -1;
      NoPlace(Sorted(rows[..count]), cursor);
    }

    /** Drops a row, compacts the table, and moves a cursor that stood on it. */
    method RemoveAt(idx: nat)
      requires Valid() && idx < count
      modifies this, rows, order
      ensures Valid() && Abs() == RemoveIndex(old(Abs()), idx) && count == old(count) - 1
    {
      hide OrderOf, Sorted, Ok, CursorPos;
      ghost var b, table := Abs(), rows[..count];
      RemoveIndexOk(b, idx);
      var removed := rows[idx].id;
      var cursorRemoved := cursor == removed;
      var curPos := CursorPosition();
      if removed == inflight {
        inflight := 0;
      }
      CloseGap(idx);
      Reorder();
      if cursorRemoved {
        PlaceCursor(curPos);
      }
    }

    /** The cursor goes to the row at that place of the view, or at the nearest one there is. */
    method PlaceCursor(curPos: int)
      requires Shaped() && order[..count] == OrderOf(rows[..count])
      modifies this`cursor
      ensures cursor == if count == 0 then 0 else Sorted(rows[..count])[Clamp(curPos, count)].id
    {
      hide OrderOf, Sorted;
      if count == 0 {
        cursor := 0;
        return;
      }
      var pos := curPos;
      if pos < 0 {
        pos := 0;
      }
      if pos >= count {
        pos := count - 1;
      }
      ShownRow(rows[..count], pos);
      assert order[..count][pos] == OrderOf(rows[..count])[pos];
      cursor := rows[order[pos]].id;
    }

    method CloseGap(idx: nat)
      requires Shaped() && idx < count
      modifies this`count, rows
      ensures Shaped() && count == old(count) - 1 && rows[..count] == Without(old(rows[..count]), idx)
    {
      ghost var table := rows[..count];
      for i := idx to count - 1
        modifies rows
        invariant forall k :: 0 <= k < CAP ==> rows[k] == if idx <= k < i then table[k + 1] else old(rows[k])
      {
        rows[i] := rows[i + 1];
      }
      count := count - 1;
      rows[count] := ZERO;
    }

    /** Updates or inserts; returns -1 when sixteen blocked rows leave no room. */
    method Put(f: Fields) returns (rc: int)
      requires Valid()
      modifies this, rows, order
      ensures Valid() && (rc, Abs()) == Upsert(old(Abs()), f)
    {
      hide OrderOf, Sorted, Ok, RemoveIndex, Victim, WithRoom, Bounded;
      ghost var b := Abs();
      var row, status := MakeRow(f), f.status;
      StoredKeeps(b, row, status);
      var i := FindRow(row.id);
      if i >= 0 {
        Update(i, row, status);
        return 0;
      }
      var room := MakeRoom();
      if !room {
        return -1;
      }
      Append(row);
      rc := 0;
    }

    method Update(i: nat, row: Row, status: string)
      requires Shaped() && i < count && i == Find(rows[..count], row.id) && Ok(Stored(Abs(), row, status).1)
      modifies this`inflight, rows, order
      ensures Valid() && Abs() == Stored(old(Abs()), row, status).1
    {
      hide OrderOf, Sorted, Ok, RemoveIndex, Victim, WithRoom;
      var changed := rows[i].status != status;
      ghost var table := rows[..count];
      rows[i] := row;
      assert rows[..count] == table[i := row];
      if row.id == inflight && changed {
        inflight := 0;
      }
      Reorder();
    }

    /** Evicts the oldest row that is not blocked if the table is full. */
    method MakeRoom() returns (room: bool)
      requires Valid()
      modifies this, rows, order
      ensures Valid() && (room, Abs()) == WithRoom(old(Abs())) && if room then count < CAP else Abs() == old(Abs())
    {
      hide OrderOf, Sorted, Ok, RemoveIndex, Victim;
      if count < CAP {
        return true;
      }
      var victim := FirstUnblocked();
      if victim < 0 {
        return false;
      }
      RemoveAt(victim);
      room := true;
    }

    method Append(row: Row)
      requires Shaped() && count < CAP
      requires Ok(Appended(Abs(), row))
      modifies this, rows, order
      ensures Valid() && Abs() == Appended(old(Abs()), row)
    {
      hide OrderOf, Sorted, Ok;
      ghost var table := rows[..count];
      rows[count] := row;
      count := count + 1;
      assert rows[..count] == table + [row];
      if row.id == inflight {
        inflight := 0;
      }
      if cursor == 0 {
        cursor := row.id;
      }
      Reorder();
    }

    method FirstUnblocked() returns (i: int)
      requires Shaped()
      ensures i == Victim(rows[..count])
    {
      var k := 0;
      while k < count
        invariant k <= count && forall j :: 0 <= j < k ==> Blocked(rows[j])
      {
        if rows[k].status != "blocked" {
          FirstVictim(rows[..count], k);
          return k;
        }
        k := k + 1;
      }
      i := -1;
    }

    method Delete(id: nat) returns (rc: int)
      requires Valid()
      modifies this, rows, order
      ensures Valid() && (rc, Abs()) == Remove(old(Abs()), id)
    {
      hide OrderOf, Sorted, Ok, RemoveIndex;
      var i := FindRow(id);
      if i >= 0 {
        RemoveAt(i);
        return 0;
      }
      rc := -1;
    }

    method Select(id: nat)
      requires Valid()
      modifies this`cursor
      ensures Valid() && Abs() == old(Abs()).(cursor := id)
    {
      cursor := id;
    }

    method Move(delta: int)
      requires Valid()
      modifies this`cursor
      ensures Valid() && Abs() == CursorMove(old(Abs()), delta)
    {
      hide OrderOf, Sorted, CursorPos;
      if count == 0 {
        cursor := 0;
        return;
      }
      var pos := CursorPosition();
      if pos < 0 {
        pos := 0;
      } else {
        pos := pos + delta;
      }
      if pos < 0 {
        pos := 0;
      }
      if pos >= count {
        pos := count - 1;
      }
      cursor := RowAt(pos).id;
    }

    /** Keeps the cursor within the window, and the window on the board. */
    method ViewportTop(visible: int) returns (top: int)
      requires Valid()
      modifies this`scroll
      ensures Valid() && (top, Abs()) == Viewport(old(Abs()), visible)
    {
      hide OrderOf, Sorted, CursorPos;
      if visible <= 0 {
        scroll := 0;
        return 0;
      }
      var cur := CursorPosition();
      if cur >= 0 {
        if cur < scroll {
          scroll := cur;
        } else if cur >= scroll + visible {
          scroll := cur - visible + 1;
        }
      }
      var maxtop := count - visible;
      if maxtop < 0 {
        maxtop := 0;
      }
      if scroll > maxtop {
        scroll := maxtop;
      }
      if scroll < 0 {
        scroll := 0;
      }
      top := scroll;
    }

    method ApprovalEnabled(now: nat) returns (enabled: bool)
      requires Valid()
      ensures enabled == Enabled(Abs(), now)
    {
      hide OrderOf, Sorted, CursorPos;
      var pos := CursorPosition();
      if pos < 0 {
        return false;
      }
      var r := RowAt(pos);
      if r.status != "blocked" {
        return false;
      }
      if r.kind !in ALLOWLIST {
        return false;
      }
      if inflight != 0 && (now - since) % TICKS < COOLDOWN && inflight == r.id {
        return false;
      }
      enabled := true;
    }

    method ArmApproval(now: nat) returns (armed: bool)
      requires Valid()
      modifies this`inflight, this`since
      ensures Valid() && (armed, Abs()) == Arm(old(Abs()), now)
    {
      hide OrderOf, Sorted, CursorPos, Enabled;
      armed := ApprovalEnabled(now);
      if !armed {
        return;
      }
      EnabledRow(Abs(), now);
      inflight := cursor;
      since := now % TICKS;
    }
  }

  ghost function Appended(b: BoardModel.Board, row: Row): BoardModel.Board {
    b.(rows := b.rows + [row], inflight := if b.inflight == row.id then 0 else b.inflight,
       cursor := if b.cursor == 0 then row.id else b.cursor)
  }

  lemma EnabledRow(b: BoardModel.Board, now: nat)
    requires Enabled(b, now)
    ensures Find(b.rows, b.cursor) >= 0
  {
    CursorRow(b);
  }

  lemma {:induction false} PicksMonotone(rows: seq<Row>, blocked: bool, n: nat, m: nat)
    requires n <= m <= |rows|
    ensures |Picks(rows, true, m)| + |Picks(rows, false, m)| == m
    ensures |Picks(rows, blocked, n)| <= |Picks(rows, blocked, m)|
  {
    PicksCount(rows, m);
    if n < m {
      PicksMonotone(rows, blocked, n, m - 1);
    }
  }

  lemma NoPicks(rows: seq<Row>, blocked: bool)
    ensures Picks(rows, blocked, 0) == []
  {
  }

  lemma NextPick(rows: seq<Row>, blocked: bool, i: nat)
    requires i < |rows|
    ensures Picks(rows, blocked, i + 1) == Picks(rows, blocked, i) + if (rows[i].status == "blocked") == blocked then [i] else []
  {
  }

  lemma FirstPlace(rows: seq<Row>, id: nat, k: nat)
    requires k < |rows| && rows[k].id == id && forall j :: 0 <= j < k ==> rows[j].id != id
    ensures Find(rows, id) == k
  {
  }

  lemma NoPlace(rows: seq<Row>, id: nat)
    requires forall j :: 0 <= j < |rows| ==> rows[j].id != id
    ensures Find(rows, id) == -1
  {
  }

  lemma FirstVictim(rows: seq<Row>, k: nat)
    requires k < |rows| && !Blocked(rows[k]) && forall j :: 0 <= j < k ==> Blocked(rows[j])
    ensures Victim(rows) == k
  {
  }

  lemma ShownRow(rows: seq<Row>, k: nat)
    requires k < |rows|
    ensures OrderOf(rows)[k] < |rows| && Sorted(rows)[k] == rows[OrderOf(rows)[k]]
  {
  }
}
