/** What the device is told of the rows, in the words of the protocol. */
module BridgeLaws {
  import opened Approvals
  import opened Bridge

  /** The status the device shows: work is a running tool, the three states it knows keep their names. */
  lemma StatusWords(status: string)
    ensures DeviceStatus("working") == "running_tool"
    ensures status in {"blocked", "done", "idle"} ==> DeviceStatus(status) == status
    ensures status !in {"working", "blocked", "done", "idle"} ==> DeviceStatus(status) == "unknown"
  {
  }

  // ---- the board ------------------------------------------------------------------------------------------------------------

  /** The live rows below n, in the order of their ids, each once. */
  lemma {:induction false} LiveIdsAre(c: Core, n: nat)
    ensures forall id :: id in LiveIds(c, n) <==> id < n && id in c.byId && !c.byId[id].ended
    ensures forall j, k :: 0 <= j < k < |LiveIds(c, n)| ==> LiveIds(c, n)[j] < LiveIds(c, n)[k]
  {
    if n > 0 {
      LiveIdsAre(c, n - 1);
      var before, last := LiveIds(c, n - 1), if Live(c, n - 1) then [n - 1] else [];
      assert LiveIds(c, n) == before + last;
      forall id ensures id in before + last <==> id < n && id in c.byId && !c.byId[id].ended {
        assert id in before + last <==> id in before || id in last;
      }
      forall j | 0 <= j < |before| ensures before[j] < n - 1 {
        assert before[j] in before;
      }
    }
  }

  lemma {:induction false} StatesAre(c: Core, n: nat)
    ensures |States(c, n)| == |LiveIds(c, n)|
    ensures forall k :: 0 <= k < |LiveIds(c, n)| ==>
      LiveIds(c, n)[k] in c.byId && States(c, n)[k] == State(LiveIds(c, n)[k], DeviceStatus(c.byId[LiveIds(c, n)[k]].status))
  {
    if n > 0 {
      StatesAre(c, n - 1);
    }
  }

  /** A board is the state of every live row in the order of the ids and then the list of these ids; it changes no row. */
  lemma BoardShows(c: Core, ids: seq<nat>)
    requires forall id :: id in c.byId ==> id < c.nextId
    requires forall id :: id in ids <==> id in c.byId && !c.byId[id].ended
    requires forall j, k :: 0 <= j < k < |ids| ==> ids[j] < ids[k]
    ensures var c', m := WithBoard(c), |c.trace|;
      && c' == c.(trace := c'.trace) && |c'.trace| == m + |ids| + 1 && c'.trace[..m] == c.trace
      && (forall k :: 0 <= k < |ids| ==> c'.trace[m + k] == State(ids[k], DeviceStatus(c.byId[ids[k]].status)))
      && c'.trace[m + |ids|] == List(ids)
  {
    hide LiveIds, WithBoard, DeviceStatus, SameMembers;
    LiveIdsAre(c, c.nextId);
    assert SameMembers(ids, LiveIds(c, c.nextId)) by {
      MembersMatch(c, ids);
    }
    assert Ascending(ids) && Ascending(LiveIds(c, c.nextId));
    hide Ascending;
    SameAscending(ids, LiveIds(c, c.nextId));
    BoardIs(c);
  }

  ghost predicate SameMembers(a: seq<nat>, b: seq<nat>) {
    forall x :: x in a <==> x in b
  }

  lemma MembersMatch(c: Core, ids: seq<nat>)
    requires forall id :: id in c.byId ==> id < c.nextId
    requires forall id :: id in ids <==> id in c.byId && !c.byId[id].ended
    ensures SameMembers(ids, LiveIds(c, c.nextId))
  {
    hide LiveIds;
    LiveIdsAre(c, c.nextId);
  }

  lemma BoardIs(c: Core)
    ensures var c', m, ids := WithBoard(c), |c.trace|, LiveIds(c, c.nextId);
      && c' == c.(trace := c'.trace) && |c'.trace| == m + |ids| + 1 && c'.trace[..m] == c.trace
      && (forall k :: 0 <= k < |ids| ==> ids[k] in c.byId && c'.trace[m + k] == State(ids[k], DeviceStatus(c.byId[ids[k]].status)))
      && c'.trace[m + |ids|] == List(ids)
  {
    hide LiveIds, States, DeviceStatus;
    StatesAre(c, c.nextId);
  }

  ghost predicate Ascending(a: seq<nat>) {
    forall j, k :: 0 <= j < k < |a| ==> a[j] < a[k]
  }

  /** Ascending sequences with the same members are equal. */
  lemma {:induction false} SameAscending(a: seq<nat>, b: seq<nat>)
    requires Ascending(a) && Ascending(b) && SameMembers(a, b)
    ensures a == b
  {
    hide Ascending;
    assert b == [] || b[0] in b;
    if a != [] {
      assert a[|a| - 1] in b && b != [];
      var x, y := a[|a| - 1], b[|b| - 1];
      LastOf(a, y);
      LastOf(b, x);
      var a', b' := a[..|a| - 1], b[..|b| - 1];
      assert SameMembers(a', b') by {
        forall z ensures z in a' <==> z in b' {
          LastOf(a, z);
          LastOf(b, z);
        }
      }
      SameAscending(a', b');
      assert a == a' + [x] && b == b' + [y];
    }
  }

  /** The last of an ascending sequence is its greatest; the others are in front of it. */
  lemma LastOf(a: seq<nat>, z: nat)
    requires a != [] && Ascending(a)
    ensures Ascending(a[..|a| - 1]) && (z in a ==> z <= a[|a| - 1])
    ensures z in a[..|a| - 1] <==> z in a && z != a[|a| - 1]
  {
    if z in a && z != a[|a| - 1] {
      var k :| 0 <= k < |a| && a[k] == z;
      assert a[..|a| - 1][k] == z;
    }
  }

  // ---- events -----------------------------------------------------------------------------------------------------------------

  /** A pane that has no row gets the next id, with the agent and status it came with, and the board is shown; a known pane
      is passed over. */
  lemma CreatedRow(c: Core, session: string, pane: Pane)
    requires Consistent(c)
    ensures (session, pane.paneId) in c.byKey ==> OnEvent(c, session, PaneCreated(pane)) == c
    ensures (session, pane.paneId) !in c.byKey ==>
      OnEvent(c, session, PaneCreated(pane)) ==
        WithBoard(Core(c.byId[c.nextId := Row(session, pane.paneId, pane.agent, pane.status, false)],
                       c.byKey[(session, pane.paneId) := c.nextId], c.nextId + 1, c.trace))
  {
    hide WithBoard;
  }

  /** A pane that is gone ends its live row with one alert, and the board is shown; nothing happens otherwise. */
  lemma GonePane(c: Core, session: string, pane: string)
    requires Consistent(c)
    ensures (session, pane) in c.byKey && !c.byId[c.byKey[(session, pane)]].ended ==>
      var id := c.byKey[(session, pane)];
      OnEvent(c, session, PaneGone(pane)) ==
        WithBoard(Core(c.byId[id := c.byId[id].(ended := true)], c.byKey, c.nextId, c.trace + [Alert(id, SessionEnded)]))
    ensures (session, pane) !in c.byKey || c.byId[c.byKey[(session, pane)]].ended ==> OnEvent(c, session, PaneGone(pane)) == c
  {
    hide WithBoard;
    KeyLeads(c, (session, pane));
  }

  /** A detected agent is stored, also in an ended row, and the row's state sent. */
  lemma DetectedAgent(c: Core, session: string, pane: string, agent: string)
    requires Consistent(c)
    ensures (session, pane) in c.byKey ==>
      var id := c.byKey[(session, pane)];
      && id in c.byId
      && OnEvent(c, session, AgentDetected(pane, agent)) ==
           Core(c.byId[id := c.byId[id].(agent := agent)], c.byKey, c.nextId,
                c.trace + [State(id, DeviceStatus(c.byId[id].status))])
    ensures (session, pane) !in c.byKey ==> OnEvent(c, session, AgentDetected(pane, agent)) == c
  {
    hide DeviceStatus;
    KeyLeads(c, (session, pane));
  }

  /** A new status of a live row is stored and sent, followed by an alert if the row is blocked or done now; the same status
      again sends nothing.  An agent that comes along is stored either way. */
  lemma NewStatus(c: Core, session: string, pane: string, status: string, agent: Option<string>, id: nat)
    requires Consistent(c) && (session, pane) in c.byKey && c.byKey[(session, pane)] == id && !c.byId[id].ended
    ensures var c', row := OnEvent(c, session, StatusChanged(pane, status, agent)), c.byId[id];
      && c'.byId == c.byId[id := row.(agent := if agent.Some? then agent.value else row.agent, status := status)]
      && c'.byKey == c.byKey && c'.nextId == c.nextId
      && c'.trace == c.trace
           + (if status == row.status then [] else [State(id, DeviceStatus(status))])
           + (if status == row.status then [] else if status == "blocked" then [Alert(id, Attention)]
              else if status == "done" then [Alert(id, LikelyDone)] else [])
  {
    hide DeviceStatus;
    KeyLeads(c, (session, pane));
  }

  /** A status for an unknown pane or an ended row is passed over. */
  lemma StaleStatus(c: Core, session: string, pane: string, status: string, agent: Option<string>)
    requires Consistent(c) && ((session, pane) in c.byKey ==> c.byId[c.byKey[(session, pane)]].ended)
    ensures OnEvent(c, session, StatusChanged(pane, status, agent)) == c
  {
  }

  // ---- alerts -------------------------------------------------------------------------------------------------------------------

  /** A resync repeats one alert for every live row that is blocked or done, in the order of the ids. */
  lemma {:induction false} Repeated(c: Core, n: nat)
    ensures forall e :: e in Pending(c, n) <==>
      e.Alert? && e.id < n && e.id in c.byId && !c.byId[e.id].ended
        && ((c.byId[e.id].status == "blocked" && e.cls == Attention) || (c.byId[e.id].status == "done" && e.cls == LikelyDone))
    ensures forall j, k :: 0 <= j < k < |Pending(c, n)| ==> Pending(c, n)[j].id < Pending(c, n)[k].id
  {
    if n > 0 {
      Repeated(c, n - 1);
    }
  }

  /** A lost daemon ends exactly its live rows, in the order of the ids. */
  lemma {:induction false} DepartedAre(c: Core, session: string, n: nat)
    ensures forall e :: e in Departed(c, session, n) <==>
      e.Alert? && e.cls == SessionEnded && e.id < n && e.id in c.byId && !c.byId[e.id].ended && c.byId[e.id].session == session
    ensures forall j, k :: 0 <= j < k < |Departed(c, session, n)| ==> Departed(c, session, n)[j].id < Departed(c, session, n)[k].id
  {
    if n > 0 {
      DepartedAre(c, session, n - 1);
    }
  }

  // ---- bootstrap and focus ---------------------------------------------------------------------------------------------------------

  /** A snapshot leaves every row there was as it was and sends nothing; every new row is that of one of its panes. */
  lemma {:induction false} SnapshotRows(c: Core, session: string, panes: seq<Pane>, n: nat)
    requires n <= |panes| && forall id :: id in c.byId ==> id < c.nextId
    ensures var c' := WithPanes(c, session, panes, n);
      && c'.trace == c.trace && c.nextId <= c'.nextId && (forall id :: id in c'.byId ==> id < c'.nextId)
      && (forall id :: id in c.byId ==> id in c'.byId && c'.byId[id] == c.byId[id])
      && (forall id :: id in c'.byId && id !in c.byId ==>
            exists p :: p in panes[..n] && c'.byId[id] == Row(session, p.paneId, p.agent, p.status, false))
  {
    if n > 0 {
      SnapshotRows(c, session, panes, n - 1);
      var before, c' := WithPanes(c, session, panes, n - 1), WithPanes(c, session, panes, n);
      assert panes[n - 1] in panes[..n];
      forall id | id in c'.byId && id !in c.byId
        ensures exists p :: p in panes[..n] && c'.byId[id] == Row(session, p.paneId, p.agent, p.status, false)
      {
        if id in before.byId {
          var p :| p in panes[..n - 1] && before.byId[id] == Row(session, p.paneId, p.agent, p.status, false);
          assert p in panes[..n];
        }
      }
    }
  }

  /** Rows of a session that are forgotten are gone without a word, the others stay. */
  lemma Forgotten(c: Core, session: string)
    requires Consistent(c)
    ensures var c' := ForgetAll(c, session);
      && (forall id :: id in c'.byId <==> id in c.byId && c.byId[id].session != session)
      && (forall id :: id in c'.byId ==> c'.byId[id] == c.byId[id])
      && (forall k :: k in c'.byKey <==> k in c.byKey && k.0 != session) && (forall k :: k in c'.byKey ==> c'.byKey[k] == c.byKey[k])
      && c'.nextId == c.nextId && c'.trace == c.trace
  {
    hide Consistent;
  }

  /** The focus stays on a live row; else it goes to the pane hinted at, else to the live row with the least id, if any. */
  lemma FocusSeeded(c: Core, focused: Option<nat>, hint: Option<Key>, least: nat)
    requires Consistent(c)
    ensures focused.Some? && Live(c, focused.value) ==> SeededFocus(c, focused, hint) == focused
    ensures !(focused.Some? && Live(c, focused.value)) && hint.Some? && hint.value in c.byKey && Live(c, c.byKey[hint.value]) ==>
      SeededFocus(c, focused, hint) == Some(c.byKey[hint.value])
    ensures !(focused.Some? && Live(c, focused.value)) && !(hint.Some? && hint.value in c.byKey && Live(c, c.byKey[hint.value])) ==>
      && (Live(c, least) && (forall id :: Live(c, id) ==> least <= id) ==> SeededFocus(c, focused, hint) == Some(least))
      && ((forall id :: !Live(c, id)) ==> SeededFocus(c, focused, hint) == None)
  {
    hide LiveIds, Ended, AlertsOrdered;
    LiveIdsAre(c, c.nextId);
    AllBelow(c);
    var ids := LiveIds(c, c.nextId);
    assert Live(c, least) ==> least in ids;
    if ids != [] {
      assert ids[0] in ids;
      assert Live(c, ids[0]);
      if Live(c, least) && forall id :: Live(c, id) ==> least <= id {
        var k :| 0 <= k < |ids| && ids[k] == least;
        assert ids[0] <= ids[k];
      }
    }
  }
}
