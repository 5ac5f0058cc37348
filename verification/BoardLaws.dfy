/** What each operation of the board does, written out for the rows, the cursor, the window and the approval in flight. */
module BoardLaws {
  import opened BoardModel

  /** Blocked rows are shown first, rows of one kind in the order they came in. */
  lemma ShownOrder(rows: seq<Row>, j: nat, k: nat)
    requires j < k < |rows|
    ensures var o := OrderOf(rows);
      && Sorted(rows)[j] == rows[o[j]] && Sorted(rows)[k] == rows[o[k]]
      && (if rows[o[j]].status == "blocked" then rows[o[k]].status == "blocked" ==> o[j] < o[k]
          else rows[o[k]].status != "blocked" && o[j] < o[k])
  {
    hide Sorted;
    PicksCount(rows, |rows|);
    var t, f := Picks(rows, true, |rows|), Picks(rows, false, |rows|);
    if k < |t| {
      PicksAscend(rows, true, |rows|, j, k);
      PicksState(rows, true, |rows|, j);
      PicksState(rows, true, |rows|, k);
    } else if j >= |t| {
      PicksAscend(rows, false, |rows|, j - |t|, k - |t|);
      PicksState(rows, false, |rows|, j - |t|);
      PicksState(rows, false, |rows|, k - |t|);
    } else {
      PicksState(rows, true, |rows|, j);
      PicksState(rows, false, |rows|, k - |t|);
    }
  }

  /** A row of a known session is replaced where it stands.  Its approval in flight ends if and only if the status given
      differs from the one stored. */
  lemma UpsertReplaces(b: Board, f: Fields, i: nat)
    requires Ok(b) && i < |b.rows| && b.rows[i].id == f.id
    ensures var (rc, b') := Upsert(b, f); var r := b'.rows[i];
      && rc == 0 && |b'.rows| == |b.rows| && (forall k :: 0 <= k < |b.rows| && k != i ==> b'.rows[k] == b.rows[k])
      && r.id == f.id && r.name == (if |f.name| <= 31 then f.name else f.name[..31])
      && r.kind == (if |f.kind| <= 15 then f.kind else f.kind[..15])
      && r.status == (if |f.status| <= 19 then f.status else f.status[..19])
      && r.title == (if |f.title| <= 39 then f.title else f.title[..39])
      && r.workspace == (if |f.workspace| <= 23 then f.workspace else f.workspace[..23])
      && b'.inflight == (if b.inflight == f.id && b.rows[i].status != f.status then 0 else b.inflight)
      && b'.cursor == b.cursor && b'.scroll == b.scroll && b'.since == b.since
  {
    hide Sorted;
    FindUnique(b.rows, i);
  }

  /** A new session goes behind the others while there is room; the first row gets the cursor. */
  lemma UpsertAppends(b: Board, f: Fields)
    requires Ok(b) && |b.rows| < 16 && forall k :: 0 <= k < |b.rows| ==> b.rows[k].id != f.id
    ensures var (rc, b') := Upsert(b, f);
      && rc == 0 && |b'.rows| == |b.rows| + 1 && b'.rows[..|b.rows|] == b.rows
      && var r := b'.rows[|b.rows|];
         && r.id == f.id && r.name == (if |f.name| <= 31 then f.name else f.name[..31])
         && r.kind == (if |f.kind| <= 15 then f.kind else f.kind[..15])
         && r.status == (if |f.status| <= 19 then f.status else f.status[..19])
         && r.title == (if |f.title| <= 39 then f.title else f.title[..39])
         && r.workspace == (if |f.workspace| <= 23 then f.workspace else f.workspace[..23])
         && b'.cursor == (if b.cursor == 0 then f.id else b.cursor)
         && b'.inflight == (if b.inflight == f.id then 0 else b.inflight) && b'.scroll == b.scroll && b'.since == b.since
  {
    hide Sorted;
  }

  /** On a full board the oldest row that is not blocked makes room, as if it had been removed; if all are blocked the new
      session is refused. */
  lemma UpsertEvicts(b: Board, f: Fields, v: nat)
    requires Ok(b) && |b.rows| == 16 && forall k :: 0 <= k < 16 ==> b.rows[k].id != f.id
    requires v <= 16 && (v < 16 ==> b.rows[v].status != "blocked") && forall k :: 0 <= k < v ==> b.rows[k].status == "blocked"
    ensures v == 16 ==> Upsert(b, f) == (-1, b)
    ensures v < 16 ==> Remove(b, b.rows[v].id).0 == 0 && Upsert(b, f) == Upsert(Remove(b, b.rows[v].id).1, f)
  {
    hide Sorted;
    if v < 16 {
      FindUnique(b.rows, v);
      assert forall k :: 0 <= k < 15 ==> Without(b.rows, v)[k].id != f.id;
    }
  }

  /** A session that is not on the board is not removed; otherwise its row is taken out, the others keep their order, and
      its approval in flight ends. */
  lemma RemoveRow(b: Board, id: nat, i: nat)
    requires Ok(b)
    ensures (forall k :: 0 <= k < |b.rows| ==> b.rows[k].id != id) ==> Remove(b, id) == (-1, b)
    ensures i < |b.rows| && b.rows[i].id == id ==>
      var (rc, b') := Remove(b, id);
      && rc == 0 && b'.rows == b.rows[..i] + b.rows[i + 1..] && b'.scroll == b.scroll && b'.since == b.since
      && b'.inflight == (if b.inflight == id then 0 else b.inflight)
  {
    hide Sorted;
    if i < |b.rows| {
      FindUnique(b.rows, i);
    }
  }

  /** Moving by d from place p of the view goes to place p + d, or to the first or last place if there is none; a cursor that
      is on no row goes to the first.  Nothing else changes. */
  lemma MoveCursor(b: Board, delta: int, p: nat)
    requires Ok(b)
    ensures b.rows == [] ==> CursorMove(b, delta) == b.(cursor := 0)
    ensures b.rows != [] && (b.cursor == 0 || forall k :: 0 <= k < |b.rows| ==> Sorted(b.rows)[k].id != b.cursor) ==>
      CursorMove(b, delta) == b.(cursor := Sorted(b.rows)[0].id)
    ensures p < |b.rows| && b.cursor == Sorted(b.rows)[p].id != 0 ==>
      var to := if p + delta < 0 then 0 else if p + delta >= |b.rows| then |b.rows| - 1 else p + delta;
      CursorMove(b, delta) == b.(cursor := Sorted(b.rows)[to].id)
  {
    hide Sorted, OrderOf, CursorPos;
    CursorAt(b, p);
    if forall k :: 0 <= k < |b.rows| ==> Sorted(b.rows)[k].id != b.cursor {
      CursorNowhere(b);
    }
    if b.cursor == 0 {
      CursorNowhere(b);
    }
  }

  lemma CursorNowhere(b: Board)
    requires b.cursor == 0 || forall k :: 0 <= k < |b.rows| ==> Sorted(b.rows)[k].id != b.cursor
    ensures CursorPos(b) == -1
  {
    hide Sorted, OrderOf;
  }

  /** Where the cursor is shown. */
  lemma CursorAt(b: Board, p: nat)
    requires Ok(b)
    ensures p < |b.rows| && b.cursor == Sorted(b.rows)[p].id != 0 ==> CursorPos(b) == p
  {
    hide Sorted, OrderOf;
    SortedUnique(b.rows);
    if p < |b.rows| {
      FindUnique(Sorted(b.rows), p);
    }
  }

  /** The window after a draw of `visible` rows: it lies on the board, it shows the cursor if there is one, and of all such
      windows t it is the one that has moved least.  A window of no rows stands at the top. */
  lemma Window(b: Board, visible: int, t: nat)
    requires Ok(b)
    ensures visible <= 0 ==> Viewport(b, visible) == (0, b.(scroll := 0))
    ensures visible > 0 ==>
      var (top, b') := Viewport(b, visible); var n, p, s := |b.rows|, CursorPos(b), b.scroll;
      && b' == b.(scroll := top)
      && 0 <= top && (top == 0 || top + visible <= n) && (p >= 0 ==> top <= p < top + visible)
      && ((t == 0 || t + visible <= n) && (p >= 0 ==> t <= p < t + visible) ==>
            (if top < s then s - top else top - s) <= (if t < s then s - t else t - s))
  {
    hide CursorPos;
  }

  /** An approval can be armed if and only if the cursor is on a blocked row of one of the five kinds and none was armed for
      it in the last 120 ticks of a 32-bit clock. */
  lemma EnabledIff(b: Board, now: nat, p: nat)
    requires Ok(b) && p < |b.rows| && b.cursor == Sorted(b.rows)[p].id != 0
    ensures var r := Sorted(b.rows)[p];
      Enabled(b, now) <==>
        && r.status == "blocked"
        && (r.kind == "codex" || r.kind == "cursor" || r.kind == "claude" || r.kind == "omp" || r.kind == "opencode")
        && (b.inflight != b.cursor || (now - b.since) % 0x1_0000_0000 >= 120)
  {
    hide Sorted, OrderOf;
    CursorAt(b, p);
  }

  /** Without a cursor's row none can.  Arming records the session and the time, and nothing else. */
  lemma ArmRecords(b: Board, now: nat)
    requires Ok(b)
    ensures b.cursor == 0 || (forall k :: 0 <= k < |b.rows| ==> Sorted(b.rows)[k].id != b.cursor) ==> !Enabled(b, now)
    ensures Arm(b, now) ==
      if Enabled(b, now) then (true, b.(inflight := b.cursor, since := now % 0x1_0000_0000)) else (false, b)
  {
    hide Sorted, OrderOf;
  }
}
