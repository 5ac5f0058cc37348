/** The host's supervision bridge: device ids for panes of many daemons, their end, and asynchronous approvals, under any
    interleaving of daemon events. */
module Bridge {
  import opened Approvals

  // ---- rows ------------------------------------------------------------------------------------------------------------

  /** (daemon session, pane id). */
  type Key = (string, string)

  datatype Row = Row(session: string, pane: string, agent: string, status: string, ended: bool)

  function KeyOf(r: Row): Key { (r.session, r.pane) }

  datatype AlertClass = Attention | LikelyDone | SessionEnded

  /** What goes to the device. */
  datatype Emission =
    | State(id: nat, status: string)
    | List(ids: seq<nat>)
    | Alert(id: nat, cls: AlertClass)
    | Error(id: nat)
    | Terminal(id: nat)

  function DeviceStatus(status: string): string {
    if status == "working" then "running_tool"
    else if status == "blocked" || status == "done" || status == "idle" then status
    else "unknown"
  }

  function AlertFor(status: string): Option<AlertClass> {
    if status == "blocked" then Some(Attention) else if status == "done" then Some(LikelyDone) else None
  }

  /** The two indexes, the next device id, and everything emitted so far. */
  datatype Core = Core(byId: map<nat, Row>, byKey: map<Key, nat>, nextId: nat, trace: seq<Emission>)

  ghost predicate Ended(trace: seq<Emission>, id: nat) {
    exists i :: 0 <= i < |trace| && trace[i] == Alert(id, SessionEnded)
  }

  predicate Live(c: Core, id: nat) {
    id in c.byId && !c.byId[id].ended
  }

  /** session_ended is the last alert of its id. */
  ghost predicate AlertsOrdered(trace: seq<Emission>) {
    forall i, j :: 0 <= i < j < |trace| && trace[i].Alert? && trace[i].cls == SessionEnded && trace[j].Alert? ==>
      trace[i].id != trace[j].id
  }

  /** The indexes agree, every live row is the one its key leads to, ids are below the next one, and exactly the rows
      whose end was announced are ended. */
  ghost predicate Consistent(c: Core) {
    && (forall id :: id in c.byId ==> id < c.nextId)
    && (forall k :: k in c.byKey ==> c.byKey[k] in c.byId && KeyOf(c.byId[c.byKey[k]]) == k)
    && (forall id :: Live(c, id) ==> KeyOf(c.byId[id]) in c.byKey && c.byKey[KeyOf(c.byId[id])] == id)
    && (forall id :: id in c.byId ==> (c.byId[id].ended <==> Ended(c.trace, id)))
    && (forall i :: 0 <= i < |c.trace| && c.trace[i].Alert? ==> c.trace[i].id < c.nextId)
    && AlertsOrdered(c.trace)
  }

  /** At most one live row for each (session, pane). */
  lemma OneLiveRow(c: Core, a: nat, b: nat)
    requires Consistent(c) && Live(c, a) && Live(c, b) && KeyOf(c.byId[a]) == KeyOf(c.byId[b])
    ensures a == b
  {
  }

  /** What no step undoes: ids keep their pane, the ended stay ended, emissions are final, and an id unknown before is a
      new one. */
  ghost predicate Advances(c: Core, c': Core) {
    && c.nextId <= c'.nextId && c.trace <= c'.trace
    && (forall id :: id in c'.byId ==> if id in c.byId then KeyOf(c'.byId[id]) == KeyOf(c.byId[id]) else id >= c.nextId)
    && (forall id :: Live(c', id) && id in c.byId ==> Live(c, id))
  }

  lemma AdvancesTrans(a: Core, b: Core, c: Core)
    requires Consistent(a) && Advances(a, b) && Advances(b, c)
    ensures Advances(a, c)
  {
    hide Ended, AlertsOrdered;
  }

  /** A state sent at position i for an id whose end was announced before. */
  ghost predicate Late(trace: seq<Emission>, i: nat)
    requires i < |trace|
  {
    trace[i].State? && Ended(trace[..i], trace[i].id)
  }

  lemma LatePrefix(s: seq<Emission>, t: seq<Emission>, i: nat)
    requires s <= t && i < |s|
    ensures Late(s, i) <==> Late(t, i)
  {
    assert s[..i] == t[..i];
  }

  /** And no state is late. */
  ghost predicate Evolves(c: Core, c': Core) {
    Advances(c, c') && forall i: nat :: |c.trace| <= i < |c'.trace| ==> !Late(c'.trace, i)
  }

  lemma EvolvesTrans(a: Core, b: Core, c: Core)
    requires Consistent(a) && Evolves(a, b) && Evolves(b, c)
    ensures Evolves(a, c)
  {
    hide Consistent, Late;
    AdvancesTrans(a, b, c);
    forall i: nat | |a.trace| <= i < |c.trace| ensures !Late(c.trace, i) {
      if i < |b.trace| {
        LatePrefix(b.trace, c.trace, i);
      }
    }
  }

  lemma EvolvesAdvances(c: Core, c': Core)
    requires Evolves(c, c')
    ensures Advances(c, c')
  {
  }

  // ---- primitive changes -------------------------------------------------------------------------------------------------

  function Emit(c: Core, e: Emission): Core { c.(trace := c.trace + [e]) }

  lemma EndedEmit(trace: seq<Emission>, e: Emission, id: nat)
    ensures Ended(trace + [e], id) <==> Ended(trace, id) || e == Alert(id, SessionEnded)
  {
    assert (trace + [e])[|trace|] == e;
    if Ended(trace, id) {
      var i :| 0 <= i < |trace| && trace[i] == Alert(id, SessionEnded);
      assert (trace + [e])[i] == trace[i];
    }
    if Ended(trace + [e], id) {
      var i :| 0 <= i < |trace + [e]| && (trace + [e])[i] == Alert(id, SessionEnded);
    }
  }

  lemma NotEnded(trace: seq<Emission>, id: nat, i: nat)
    requires !Ended(trace, id) && i < |trace|
    ensures trace[i] != Alert(id, SessionEnded)
  {
  }

  lemma EndedKnown(c: Core, id: nat)
    requires Consistent(c)
    ensures Ended(c.trace, id) ==> id < c.nextId
  {
    if Ended(c.trace, id) {
      var i :| 0 <= i < |c.trace| && c.trace[i] == Alert(id, SessionEnded);
      assert c.trace[i].Alert?;
    }
  }

  /** One more alert for an id whose end was not announced. */
  lemma AlertsMore(trace: seq<Emission>, e: Emission)
    requires AlertsOrdered(trace) && (e.Alert? ==> !Ended(trace, e.id))
    ensures AlertsOrdered(trace + [e])
  {
    var t := trace + [e];
    forall i, j | 0 <= i < j < |t| && t[i].Alert? && t[i].cls == SessionEnded && t[j].Alert? ensures t[i].id != t[j].id {
      if j == |trace| {
        NotEnded(trace, e.id, i);
      }
    }
  }

  /** Anything may be emitted at any time but alerts, which take a live row. */
  lemma EmitAdvances(c: Core, e: Emission)
    requires Consistent(c) && (e.Alert? ==> e.cls != SessionEnded && Live(c, e.id))
    ensures Consistent(Emit(c, e)) && Advances(c, Emit(c, e))
  {
    hide Ended, AlertsOrdered;
    var c' := Emit(c, e);
    AlertsMore(c.trace, e);
    forall id | id in c'.byId ensures c'.byId[id].ended <==> Ended(c'.trace, id) {
      EndedEmit(c.trace, e, id);
    }
  }

  /** For a live row a state is not late either. */
  lemma EmitKeeps(c: Core, e: Emission)
    requires Consistent(c) && (e.Alert? ==> e.cls != SessionEnded && Live(c, e.id)) && (e.State? ==> Live(c, e.id))
    ensures Consistent(Emit(c, e)) && Evolves(c, Emit(c, e))
  {
    hide Advances, AlertsOrdered, Ended;
    EmitAdvances(c, e);
    assert (c.trace + [e])[..|c.trace|] == c.trace;
  }

  function End(c: Core, id: nat): Core
    requires id in c.byId
  {
    c.(byId := c.byId[id := c.byId[id].(ended := true)], trace := c.trace + [Alert(id, SessionEnded)])
  }

  lemma EndKeeps(c: Core, id: nat)
    requires Consistent(c) && Live(c, id)
    ensures Consistent(End(c, id)) && Evolves(c, End(c, id)) && !Live(End(c, id), id)
  {
    hide Ended, AlertsOrdered;
    var c' := End(c, id);
    var e := Alert(id, SessionEnded);
    AlertsMore(c.trace, e);
    forall x | x in c'.byId ensures c'.byId[x].ended <==> Ended(c'.trace, x) {
      EndedEmit(c.trace, e, x);
    }
    forall x | Live(c', x) ensures KeyOf(c'.byId[x]) in c'.byKey && c'.byKey[KeyOf(c'.byId[x])] == x {
      assert Live(c, x);
    }
  }

  function New(c: Core, r: Row): Core {
    c.(byId := c.byId[c.nextId := r], byKey := c.byKey[KeyOf(r) := c.nextId], nextId := c.nextId + 1)
  }

  lemma NewEvolves(c: Core, r: Row)
    requires Consistent(c) && !r.ended
    ensures Evolves(c, New(c, r)) && Live(New(c, r), c.nextId)
  {
    hide Ended, AlertsOrdered, Late;
  }

  lemma NewKeeps(c: Core, r: Row)
    requires Consistent(c) && !r.ended && (KeyOf(r) in c.byKey ==> !Live(c, c.byKey[KeyOf(r)]))
    ensures Consistent(New(c, r)) && Evolves(c, New(c, r)) && Live(New(c, r), c.nextId)
  {
    hide Ended, AlertsOrdered, Evolves;
    NewEvolves(c, r);
    var c' := New(c, r);
    forall x | Live(c', x) ensures KeyOf(c'.byId[x]) in c'.byKey && c'.byKey[KeyOf(c'.byId[x])] == x {
      if x != c.nextId {
        assert Live(c, x);
      }
    }
    forall x | x in c'.byId ensures c'.byId[x].ended <==> Ended(c'.trace, x) {
      EndedKnown(c, x);
    }
  }

  /** A row changes its agent or status, nothing else. */
  function Change(c: Core, id: nat, agent: string, status: string): Core
    requires id in c.byId
  {
    c.(byId := c.byId[id := c.byId[id].(agent := agent, status := status)])
  }

  lemma ChangeKeeps(c: Core, id: nat, agent: string, status: string)
    requires Consistent(c) && id in c.byId
    ensures Consistent(Change(c, id, agent, status)) && Evolves(c, Change(c, id, agent, status))
    ensures forall x :: Live(Change(c, id, agent, status), x) <==> Live(c, x)
  {
    var c' := Change(c, id, agent, status);
    forall x ensures Live(c', x) <==> Live(c, x) {
    }
  }

  /** All rows of a daemon session are forgotten without a word. */
  function ForgetAll(c: Core, session: string): Core {
    c.(byId := map id | id in c.byId && c.byId[id].session != session :: c.byId[id],
       byKey := map k | k in c.byKey && k.0 != session :: c.byKey[k])
  }

  lemma ForgetKeeps(c: Core, session: string)
    requires Consistent(c)
    ensures Consistent(ForgetAll(c, session)) && Evolves(c, ForgetAll(c, session))
  {
    hide Ended, AlertsOrdered;
    var c' := ForgetAll(c, session);
    forall k | k in c'.byKey ensures c'.byKey[k] in c'.byId && KeyOf(c'.byId[c'.byKey[k]]) == k {
      assert KeyOf(c.byId[c.byKey[k]]) == k;
    }
    forall x | Live(c', x) ensures KeyOf(c'.byId[x]) in c'.byKey && c'.byKey[KeyOf(c'.byId[x])] == x {
      assert Live(c, x);
    }
  }

  // ---- the board -----------------------------------------------------------------------------------------------------------

  /** The live ids below n, ascending: the order in which the rows were created. */
  function LiveIds(c: Core, n: nat): seq<nat> {
    if n == 0 then [] else LiveIds(c, n - 1) + if Live(c, n - 1) then [n - 1] else []
  }

  function States(c: Core, n: nat): seq<Emission> {
    if n == 0 then []
    else States(c, n - 1) + if Live(c, n - 1) then [State(n - 1, DeviceStatus(c.byId[n - 1].status))] else []
  }

  /** Every live row, then the list of them. */
  function WithBoard(c: Core): Core {
    c.(trace := c.trace + States(c, c.nextId) + [List(LiveIds(c, c.nextId))])
  }

  lemma {:induction false} StatesKeep(c: Core, n: nat)
    requires Consistent(c)
    ensures Consistent(c.(trace := c.trace + States(c, n))) && Evolves(c, c.(trace := c.trace + States(c, n)))
  {
    hide Ended, AlertsOrdered, Consistent, Evolves;
    if n == 0 {
      assert c.trace + [] == c.trace;
      SelfEvolves(c);
    } else {
      StatesKeep(c, n - 1);
      var c' := c.(trace := c.trace + States(c, n - 1));
      if Live(c, n - 1) {
        var e := State(n - 1, DeviceStatus(c.byId[n - 1].status));
        EmitKeeps(c', e);
        EvolvesTrans(c, c', Emit(c', e));
        assert Emit(c', e).trace == c.trace + States(c, n);
      } else {
        assert States(c, n) == States(c, n - 1);
      }
    }
  }

  lemma SelfEvolves(c: Core)
    requires Consistent(c)
    ensures Evolves(c, c)
  {
  }

  lemma BoardKeeps(c: Core)
    requires Consistent(c)
    ensures Consistent(WithBoard(c)) && Evolves(c, WithBoard(c))
  {
    hide Consistent, Evolves;
    var c' := c.(trace := c.trace + States(c, c.nextId));
    StatesKeep(c, c.nextId);
    EmitKeeps(c', List(LiveIds(c, c.nextId)));
    EvolvesTrans(c, c', Emit(c', List(LiveIds(c, c.nextId))));
  }

  // ---- the bridge --------------------------------------------------------------------------------------------------------------

  datatype SessionPhase = Starting | Ready | Failed

  datatype Phase = Idle | Booting | Up

  /** A request that came while the bridge was starting. */
  datatype Op = QueuedResync(target: Option<nat>) | QueuedFocus(id: nat) | QueuedTap(id: nat, action: Action)

  /** A control channel: its number and the device id it was opened for. */
  datatype Channel = Channel(number: nat, id: nat)

  /** A daemon's push, reduced to what the bridge reads. */
  datatype Event =
    | PaneCreated(pane: Pane)
    | PaneGone(paneId: string)
    | AgentDetected(paneId: string, agent: string)
    | StatusChanged(paneId: string, status: string, newAgent: Option<string>)

  class HerdrBridge {
    /** One injected daemon instead of discovery. */
    const single: bool
    var byId: map<nat, Row>
    var byKey: map<Key, nat>
    var nextId: nat
    var sessions: map<string, SessionPhase>
    var phase: Phase
    var pendingOps: seq<Op>
    var focused: Option<nat>
    var channel: Option<Channel>
    var nextChannel: nat
    var failedNotified: set<string>
    var exchanges: map<nat, Exchange>
    var approvalsInFlight: set<nat>
    var nextExchange: nat
    ghost var trace: seq<Emission>
    ghost var log: seq<Entry>

    constructor (s: bool)
      ensures Valid() && single == s && C() == Core(map[], map[], 1, []) && B() == Book(map[], {}, [], 0)
    {
      single := s;
      byId, byKey, nextId, sessions, phase, focused := map[], map[], 1, map[], Idle, None;
      channel, nextChannel, failedNotified, pendingOps := None, 0, {}, [];
      exchanges, approvalsInFlight, nextExchange := map[], {}, 0;
      trace, log := [], [];
      new;
      EmptyBookOk();
    }

    ghost function C(): Core
      reads this
    {
      Core(byId, byKey, nextId, trace)
    }

    ghost function B(): Book
      reads this
    {
      Book(exchanges, approvalsInFlight, log, nextExchange)
    }

    ghost predicate Valid()
      reads this
    {
      Consistent(C()) && BookOk(B())
    }

    // ---- emissions ----------------------------------------------------------------------------------------------------------

    method EmitBoard()
      requires Valid()
      modifies this`trace
      ensures Valid() && C() == WithBoard(old(C())) && Evolves(old(C()), C())
    {
      hide Consistent, Evolves, BookOk;
      BoardKeeps(C());
      ghost var c := C();
      var ids := [];
      for id := 0 to nextId
        invariant C() == c.(trace := c.trace + States(c, id)) && B() == old(B()) && ids == LiveIds(c, id)
      {
        if id in byId && !byId[id].ended {
          trace := trace + [State(id, DeviceStatus(byId[id].status))];
          ids := ids + [id];
        }
      }
      trace := trace + [List(ids)];
    }

    // ---- rows ---------------------------------------------------------------------------------------------------------------------

    /** The live row of a pane: the known one, or a new one under a fresh id, also where an ended row has the pane's key. */
    method EnsureSession(session: string, p: Pane) returns (id: nat)
      requires Valid()
      modifies this`byId, this`byKey, this`nextId, this`focused
      ensures Valid() && Evolves(old(C()), C()) && Live(C(), id) && KeyOf(byId[id]) == (session, p.paneId)
      ensures if (session, p.paneId) in old(byKey) && Live(old(C()), old(byKey)[(session, p.paneId)])
              then C() == old(C()) && id == byKey[(session, p.paneId)]
              else id == old(nextId) && C() == New(old(C()), Row(session, p.paneId, p.agent, p.status, false))
      ensures focused == if old(focused).None? && id == old(nextId) then Some(id) else old(focused)
    {
      hide Consistent, Evolves, BookOk;
      var key := (session, p.paneId);
      KeyLeads(C(), key);
      if key in byKey && !byId[byKey[key]].ended {
        SelfEvolves(C());
        AllBelow(C());
        return byKey[key];
      }
      var r := Row(session, p.paneId, p.agent, p.status, false);
      NewKeeps(C(), r);
      id := nextId;
      nextId := nextId + 1;
      byId := byId[id := r];
      byKey := byKey[key := id];
      if focused.None? {
        focused := Some(id);
      }
    }

    /** Announces the end of a live row, once; a terminal on it is closed. */
    method EndSession(id: nat)
      requires Valid() && id in byId
      modifies this`byId, this`trace, this`channel
      ensures Valid() && Evolves(old(C()), C()) && !Live(C(), id)
      ensures C() == if old(byId)[id].ended then old(C()) else End(old(C()), id)
      ensures channel == if !old(byId)[id].ended && focused == Some(id) then None else old(channel)
    {
      hide Ended, AlertsOrdered, BookOk, Consistent, Evolves;
      if byId[id].ended {
        SelfEvolves(C());
        return;
      }
      EndKeeps(C(), id);
      byId := byId[id := byId[id].(ended := true)];
      trace := trace + [Alert(id, SessionEnded)];
      if focused == Some(id) {
        channel := None;
      }
    }

    /** Deletes a session's rows without emitting. */
    method DropSessionPanes(session: string)
      requires Valid()
      modifies this`byId, this`byKey, this`channel, this`focused
      ensures Valid() && C() == ForgetAll(old(C()), session) && Evolves(old(C()), C())
      ensures focused == if old(focused).Some? && old(focused).value in old(byId) && old(byId)[old(focused).value].session == session
                         then None else old(focused)
      ensures channel == if focused == old(focused) then old(channel) else None
    {
      hide Consistent, BookOk, Evolves, Kept, KeysLeft, ForgetAll;
      ForgetKeeps(C(), session);
      ghost var c := C();
      ghost var f := focused;
      NothingDropped(c, session);
      for id := 0 to nextId
        invariant byId == Kept(c.byId, session, id) && KeysLeft(c, session, id, byKey)
        invariant focused == if f.Some? && f.value < id && f.value in c.byId && c.byId[f.value].session == session then None else f
        invariant channel == if focused == f then old(channel) else None
      {
        KeptStep(c.byId, session, id);
        KeysStep(c, session, id, byKey);
        if id in byId && byId[id].session == session {
          byKey := byKey - {KeyOf(byId[id])};
          byId := byId - {id};
          if focused == Some(id) {
            channel := None;
            focused := None;
          }
        }
      }
      AllDropped(c, session, byKey);
    }

    // ---- bootstrap ---------------------------------------------------------------------------------------------------------------

    /** A session that is not ready starts over. */
    method EnsureClient(session: string)
      requires Valid()
      modifies this`sessions
      ensures Valid() && session in sessions
      ensures sessions == if session in old(sessions) && old(sessions)[session] == Ready then old(sessions)
                          else old(sessions)[session := Starting]
    {
      if session !in sessions || sessions[session] != Ready {
        sessions := sessions[session := Starting];
      }
    }

    /** A device attached: a bridge that is up repaints the board, an idle one starts over and may report failures again. */
    method Start()
      requires Valid()
      modifies this`phase, this`failedNotified, this`trace
      ensures Valid() && Evolves(old(C()), C())
      ensures C() == if old(phase) == Up then WithBoard(old(C())) else old(C())
      ensures phase == (if old(phase) == Idle then Booting else old(phase))
      ensures failedNotified == if old(phase) == Idle then {} else old(failedNotified)
    {
      hide Consistent, Evolves, BookOk, WithBoard;
      SelfEvolves(C());
      if phase != Idle {
        if phase == Up {
          EmitBoard();
        }
        return;
      }
      phase := Booting;
      failedNotified := {};
    }

    /** No daemon could be looked up at all; requests that waited are forgotten. */
    method DiscoveryFailed()
      requires Valid()
      modifies this`phase, this`trace, this`pendingOps
      ensures Valid() && Evolves(old(C()), C()) && phase == Idle && pendingOps == [] && C() == Emit(old(C()), Error(0))
    {
      hide Consistent, Evolves, BookOk;
      EmitKeeps(C(), Error(0));
      phase := Idle;
      pendingOps := [];
      trace := trace + [Error(0)];
    }

    /** The snapshot of a starting session: every pane gets its row, in the order of the snapshot. */
    method CommitPanes(session: string, panes: seq<Pane>)
      requires Valid()
      modifies this`byId, this`byKey, this`nextId, this`focused
      ensures Valid() && Evolves(old(C()), C()) && trace == old(trace)
      ensures C() == WithPanes(old(C()), session, panes, |panes|)
      ensures forall i :: 0 <= i < |panes| ==> Rowed(C(), (session, panes[i].paneId))
    {
      hide Consistent, Evolves, BookOk, Rowed, Live, New;
      ghost var c := C();
      SelfEvolves(c);
      for i := 0 to |panes|
        invariant Valid() && Evolves(c, C()) && trace == c.trace && C() == WithPanes(c, session, panes, i)
        invariant forall k :: 0 <= k < i ==> Rowed(C(), (session, panes[k].paneId))
      {
        ghost var before := C();
        var id := EnsureSession(session, panes[i]);
        EvolvesTrans(c, before, C());
        RowedNow(C(), id);
        forall k | 0 <= k < i ensures Rowed(C(), (session, panes[k].paneId)) {
          RowedStill(before, C(), Row(session, panes[i].paneId, panes[i].agent, panes[i].status, false), (session, panes[k].paneId));
        }
      }
    }

    method BootReady(session: string)
      requires Valid()
      modifies this`sessions, this`failedNotified
      ensures Valid() && sessions == old(sessions)[session := Ready] && failedNotified == old(failedNotified) - {session}
    {
      sessions := sessions[session := Ready];
      failedNotified := failedNotified - {session};
    }

    /** A bootstrap that failed: its rows are dropped, and the device hears of it once per episode. */
    method BootFailed(session: string)
      requires Valid()
      modifies this`byId, this`byKey, this`sessions, this`channel, this`focused, this`failedNotified, this`trace
      ensures Valid() && Evolves(old(C()), C()) && sessions == old(sessions)[session := Failed]
      ensures C() == (var c := ForgetAll(old(C()), session); if session in old(failedNotified) then c else Emit(c, Error(0)))
      ensures failedNotified == old(failedNotified) + {session}
    {
      hide Consistent, Evolves, BookOk, ForgetAll;
      ghost var c := C();
      sessions := sessions[session := Failed];
      DropSessionPanes(session);
      if session !in failedNotified {
        failedNotified := failedNotified + {session};
        EmitKeeps(C(), Error(0));
        EvolvesTrans(c, C(), Emit(C(), Error(0)));
        trace := trace + [Error(0)];
      }
    }

    /** Keeps a focus on a live row; otherwise takes the hinted pane's row, the oldest live row, or none. */
    method SeedFocus(hint: Option<Key>)
      requires Valid()
      modifies this`focused
      ensures Valid() && C() == old(C())
      ensures focused == SeededFocus(C(), old(focused), hint)
    {
      hide BookOk, Ended, AlertsOrdered;
      if focused.Some? && focused.value in byId && !byId[focused.value].ended {
        return;
      }
      if hint.Some? && hint.value in byKey && !byId[byKey[hint.value]].ended {
        focused := Some(byKey[hint.value]);
        return;
      }
      var id := 0;
      while id < nextId
        invariant id <= nextId && LiveIds(C(), id) == []
      {
        if id in byId && !byId[id].ended {
          FirstLive(C(), id, nextId);
          focused := Some(id);
          return;
        }
        id := id + 1;
      }
      focused := None;
    }

    /** All sessions of the first enumeration have settled: the bridge is up and hands back the requests that waited, in
        order, unless its only daemon failed; then they are forgotten. */
    method AllBooted(hint: Option<Key>) returns (ops: seq<Op>)
      requires Valid()
      modifies this`focused, this`phase, this`trace, this`pendingOps
      ensures Valid() && Evolves(old(C()), C()) && pendingOps == []
      ensures if single && NoneReady(sessions)
              then phase == Idle && C() == old(C()) && focused == old(focused) && ops == []
              else && phase == Up && C() == WithBoard(old(C())) && ops == old(pendingOps)
                   && focused == SeededFocus(old(C()), old(focused), hint)
    {
      hide Consistent, Evolves, BookOk, SeededFocus, WithBoard;
      SelfEvolves(C());
      if single && NoneReady(sessions) {
        phase := Idle;
        pendingOps := [];
        return [];
      }
      SeedFocus(hint);
      phase := Up;
      EmitBoard();
      ops := pendingOps;
      pendingOps := [];
    }

    // ---- daemon events -------------------------------------------------------------------------------------------------------------

    /** An event of a daemon.  Only an agent detected on an ended row sends a late state. */
    method HandleEvent(session: string, ev: Event)
      requires Valid()
      modifies this`byId, this`byKey, this`nextId, this`focused, this`channel, this`trace
      ensures Valid() && Advances(old(C()), C())
      ensures !OnEndedRow(old(C()), session, ev) ==> Evolves(old(C()), C())
      ensures C() == OnEvent(old(C()), session, ev)
    {
      hide Consistent, Evolves, Advances, BookOk, New, End, Change, Emit, WithBoard;
      ghost var c := C();
      OnEventKeeps(c, session, ev);
      match ev {
        case PaneCreated(pane) =>
          if (session, pane.paneId) in byKey {
            return;
          }
          var _ := EnsureSession(session, pane);
          EmitBoard();
        case PaneGone(paneId) =>
          KeyLeads(c, (session, paneId));
          if (session, paneId) in byKey && !byId[byKey[(session, paneId)]].ended {
            EndSession(byKey[(session, paneId)]);
            EmitBoard();
          }
        case AgentDetected(paneId, agent) =>
          KeyLeads(c, (session, paneId));
          if (session, paneId) in byKey {
            var id := byKey[(session, paneId)];
            SetRow(id, agent, byId[id].status);
            EmitIs(C(), State(id, DeviceStatus(byId[id].status)));
            trace := trace + [State(id, DeviceStatus(byId[id].status))];
          }
        case StatusChanged(paneId, status, newAgent) =>
          KeyLeads(c, (session, paneId));
          if (session, paneId) in byKey && !byId[byKey[(session, paneId)]].ended {
            StatusEvent(byKey[(session, paneId)], status, newAgent);
          }
      }
    }

    method SetRow(id: nat, agent: string, status: string)
      requires Valid() && id in byId
      modifies this`byId
      ensures Valid() && C() == Change(old(C()), id, agent, status) && Evolves(old(C()), C())
      ensures id in byId && byId[id] == old(byId)[id].(agent := agent, status := status)
    {
      hide Consistent, Evolves, BookOk;
      ChangeKeeps(C(), id, agent, status);
      byId := byId[id := byId[id].(agent := agent, status := status)];
    }

    /** A status push for a live row: emitted once per transition, with an alert for blocked and done. */
    method StatusEvent(id: nat, status: string, newAgent: Option<string>)
      requires Valid() && Live(C(), id)
      modifies this`byId, this`trace
      ensures Valid() && Evolves(old(C()), C()) && C() == OnStatus(old(C()), id, status, newAgent)
    {
      hide Consistent, Evolves, BookOk, Change, Emit;
      OnStatusKeeps(C(), id, status, newAgent);
      var agent := if newAgent.Some? then newAgent.value else byId[id].agent;
      if status == byId[id].status {
        SetRow(id, agent, status);
        return;
      }
      SetRow(id, agent, status);
      EmitIs(C(), State(id, DeviceStatus(status)));
      trace := trace + [State(id, DeviceStatus(status))];
      var cls := AlertFor(status);
      if cls.Some? {
        EmitIs(C(), Alert(id, cls.value));
        trace := trace + [Alert(id, cls.value)];
      }
    }

    /** The live rows of a daemon end, each with one alert; nobody else's do. */
    method EndSessions(session: string)
      requires Valid()
      modifies this`byId, this`trace, this`channel
      ensures Valid() && Evolves(old(C()), C())
      ensures forall id :: Live(C(), id) <==> Live(old(C()), id) && old(byId)[id].session != session
      ensures forall id :: id in old(byId) && old(byId)[id].session != session ==> id in byId && byId[id] == old(byId)[id]
      ensures trace == old(trace) + Departed(old(C()), session, nextId)
    {
      hide Consistent, Evolves, BookOk, Closed;
      ghost var c := C();
      SelfEvolves(c);
      NothingClosed(c.byId, session);
      for id := 0 to nextId
        invariant Valid() && Evolves(c, C()) && byId == Closed(c.byId, session, id)
        invariant trace == c.trace + Departed(c, session, id)
      {
        ClosedStep(c.byId, session, id);
        if id in byId && byId[id].session == session {
          ghost var before := C();
          EndSession(id);
          EvolvesTrans(c, before, C());
        }
      }
      AllBelow(c);
      AllClosed(c, C(), session);
    }

    /** One daemon is gone: its rows end, and with other daemons left the rest of the board is shown. */
    method OnDaemonLost(session: string)
      requires Valid()
      modifies this`byId, this`trace, this`channel, this`sessions, this`phase
      ensures Valid() && Evolves(old(C()), C())
      ensures forall id :: Live(C(), id) <==> Live(old(C()), id) && old(byId)[id].session != session
      ensures forall id :: id in old(byId) && old(byId)[id].session != session ==> id in byId && byId[id] == old(byId)[id]
      ensures var told := old(C()).(byId := byId, trace := old(trace) + Departed(old(C()), session, nextId) + [Error(0)]);
        C() == if single then told else WithBoard(told)
      ensures sessions == if single then old(sessions) - {session} else old(sessions)[session := Failed]
      ensures phase == if single then Idle else old(phase)
      ensures single ==> channel == None
    {
      hide Consistent, Evolves, BookOk, WithBoard, Departed;
      ghost var c := C();
      EndSessions(session);
      ghost var c1 := C();
      EmitKeeps(c1, Error(0));
      trace := trace + [Error(0)];
      EvolvesTrans(c, c1, C());
      if single {
        channel := None;
        sessions := sessions - {session};
        phase := Idle;
        return;
      }
      sessions := sessions[session := Failed];
      ghost var c2 := C();
      EmitBoard();
      EvolvesTrans(c, c2, C());
    }

    // ---- the device -----------------------------------------------------------------------------------------------------------------

    /** Spawns a control channel for a row and supersedes the one before; `spawned` tells whether that worked. */
    method OpenChannel(id: nat, spawned: bool)
      requires Valid() && id in byId
      modifies this`channel, this`nextChannel, this`trace
      ensures Valid() && Evolves(old(C()), C())
      ensures byId[id].session !in sessions ==> channel == old(channel) && trace == old(trace)
      ensures byId[id].session in sessions ==>
        && channel == (if spawned then Some(Channel(old(nextChannel), id)) else None) && nextChannel == old(nextChannel) + 1
        && trace == if spawned then old(trace) else old(trace) + [Error(id)]
    {
      hide Consistent, Evolves, BookOk;
      SelfEvolves(C());
      if byId[id].session !in sessions {
        return;
      }
      var number := nextChannel;
      nextChannel := nextChannel + 1;
      if !spawned {
        channel := None;
        EmitKeeps(C(), Error(id));
        trace := trace + [Error(id)];
        return;
      }
      channel := Some(Channel(number, id));
    }

    /** Bytes from a channel reach the device only while it is the current one, under the id it was opened for. */
    method ChannelData(from: Channel)
      requires Valid()
      modifies this`trace
      ensures Valid() && Evolves(old(C()), C())
      ensures C() == if channel == Some(from) then Emit(old(C()), Terminal(from.id)) else old(C())
    {
      hide Consistent, Evolves, BookOk;
      SelfEvolves(C());
      if channel != Some(from) {
        return;
      }
      EmitKeeps(C(), Terminal(from.id));
      trace := trace + [Terminal(from.id)];
    }

    /** The control process of a channel is gone. */
    method ChannelExit(from: Channel)
      modifies this`channel
      ensures C() == old(C()) && B() == old(B()) && channel == if old(channel) == Some(from) then None else old(channel)
    {
      if channel == Some(from) {
        channel := None;
      }
    }

    /** A focus request: kept while the bridge starts, dropped while it is idle, and for unknown and ended ids. */
    method Focus(id: nat, spawned: bool)
      requires Valid()
      modifies this`focused, this`channel, this`nextChannel, this`trace, this`pendingOps
      ensures Valid() && Evolves(old(C()), C())
      ensures pendingOps == if phase == Booting then old(pendingOps) + [QueuedFocus(id)] else old(pendingOps)
      ensures if phase == Up && Live(old(C()), id)
              then focused == Some(id)
                && trace == old(trace) + Reopened(id, byId[id].session in sessions && !spawned)
                && channel == Respawned(byId[id].session in sessions, spawned, old(nextChannel), id, old(channel))
              else focused == old(focused) && channel == old(channel) && trace == old(trace)
    {
      hide Consistent, Evolves, BookOk;
      SelfEvolves(C());
      if phase != Up {
        if phase == Booting {
          pendingOps := pendingOps + [QueuedFocus(id)];
        }
        return;
      }
      if id !in byId || byId[id].ended {
        return;
      }
      focused := Some(id);
      OpenChannel(id, spawned);
    }

    /** The alerts of all live rows that are blocked or done, once each. */
    method RepeatAlerts()
      requires Valid()
      modifies this`trace
      ensures Valid() && Evolves(old(C()), C()) && trace == old(trace) + Pending(old(C()), nextId)
    {
      hide Consistent, Evolves, BookOk;
      ghost var c := C();
      SelfEvolves(c);
      for x := 0 to nextId
        invariant Valid() && Evolves(c, C()) && trace == c.trace + Pending(c, x)
      {
        if x in byId && !byId[x].ended && AlertFor(byId[x].status).Some? {
          ghost var before := C();
          var cls := AlertFor(byId[x].status).value;
          EmitKeeps(before, Alert(x, cls));
          trace := trace + [Alert(x, cls)];
          EvolvesTrans(c, before, C());
        }
      }
    }

    /** Kept while the bridge starts; once it is up, repaints an open terminal or the board, then repeats the alerts still pending. */
    method Resync(id: Option<nat>, spawned: bool)
      requires Valid()
      modifies this`channel, this`nextChannel, this`trace, this`pendingOps
      ensures Valid() && Evolves(old(C()), C())
      ensures byId == old(byId) && (channel.Some? ==> old(channel).Some?)
      ensures phase != Up ==> trace == old(trace) && channel == old(channel)
      ensures pendingOps == if phase == Booting then old(pendingOps) + [QueuedResync(id)] else old(pendingOps)
      ensures var target := if id.Some? then id else focused;
        phase == Up ==>
          if target.Some? && Live(old(C()), target.value) && old(channel).Some?
          then trace == old(trace) + Reopened(target.value, byId[target.value].session in sessions && !spawned)
                        + Pending(old(C()), nextId)
            && channel == Respawned(byId[target.value].session in sessions, spawned, old(nextChannel), target.value, old(channel))
          else channel == old(channel) && trace == WithBoard(old(C())).trace + Pending(old(C()), nextId)
    {
      hide Consistent, Evolves, BookOk, WithBoard, Pending;
      ghost var c := C();
      SelfEvolves(c);
      if phase != Up {
        if phase == Booting {
          pendingOps := pendingOps + [QueuedResync(id)];
        }
        return;
      }
      var target := if id.Some? then id else focused;
      if target.Some? && target.value in byId && !byId[target.value].ended && channel.Some? {
        OpenChannel(target.value, spawned);
      } else {
        EmitBoard();
      }
      ghost var painted := C();
      RepeatAlerts();
      EvolvesTrans(c, painted, C());
      SameRowsPending(c, painted, nextId);
    }

    // ---- approvals --------------------------------------------------------------------------------------------------------------------

    /** An approval request: kept while the bridge starts, dropped while it is idle. */
    method Approve(id: nat, action: Action) returns (n: Option<nat>)
      requires Valid()
      modifies this`exchanges, this`approvalsInFlight, this`nextExchange, this`log, this`pendingOps
      ensures Valid() && C() == old(C())
      ensures pendingOps == if phase == Booting then old(pendingOps) + [QueuedTap(id, action)] else old(pendingOps)
      ensures n.Some? <==>
        phase == Up && Live(C(), id) && byId[id].session in sessions && sessions[byId[id].session] == Ready
          && id !in old(approvalsInFlight)
      ensures B() == if n.None? then old(B()) else Begin(old(B()), Exchange(id, byId[id].session, byId[id].pane, action, false))
    {
      hide Consistent, BookOk;
      if phase != Up {
        if phase == Booting {
          pendingOps := pendingOps + [QueuedTap(id, action)];
        }
        return None;
      }
      n := HandleApproval(id, action);
    }

    /** A tap on a row: dropped unless the row is live, its daemon ready and no approval of the row under way; otherwise a
        fresh snapshot is requested. */
    method HandleApproval(id: nat, action: Action) returns (n: Option<nat>)
      requires Valid()
      modifies this`exchanges, this`approvalsInFlight, this`nextExchange, this`log
      ensures Valid() && C() == old(C())
      ensures n.Some? <==>
        Live(C(), id) && byId[id].session in sessions && sessions[byId[id].session] == Ready && id !in old(approvalsInFlight)
      ensures B() == if n.None? then old(B()) else Begin(old(B()), Exchange(id, byId[id].session, byId[id].pane, action, false))
      ensures n.Some? ==> n.value == old(nextExchange)
    {
      hide Consistent, BookOk;
      if id !in byId || byId[id].ended {
        return None;
      }
      if byId[id].session !in sessions || sessions[byId[id].session] != Ready {
        return None;
      }
      if id in approvalsInFlight {
        return None;
      }
      var e := Exchange(id, byId[id].session, byId[id].pane, action, false);
      BeginKeeps(B(), e);
      n := Some(nextExchange);
      approvalsInFlight := approvalsInFlight + {id};
      exchanges := exchanges[nextExchange := e];
      log := log + [IntentOf(nextExchange, e), Asked(nextExchange)];
      nextExchange := nextExchange + 1;
    }

    /** The snapshot arrives, or fails: on a passed gate the keys are sent, otherwise the exchange ends with an error. */
    method OnSnapshot(n: nat, panes: Option<seq<Pane>>)
      requires Valid() && n in exchanges && !exchanges[n].sent
      modifies this`exchanges, this`approvalsInFlight, this`log, this`trace
      ensures Valid() && Evolves(old(C()), C())
      ensures var e := old(exchanges)[n];
        if panes.None? then B() == Settle(old(B()), n) && C() == Emit(old(C()), Error(e.id))
        else if GateApproval(FindPane(panes.value, e.pane), e.action).Granted?
        then B() == Answer(old(B()), n, panes.value) && C() == old(C())
        else B() == Settle(Answer(old(B()), n, panes.value), n) && C() == Emit(old(C()), Error(e.id))
    {
      hide Consistent, Evolves, BookOk, FindPane, GateApproval;
      var e := exchanges[n];
      SelfEvolves(C());
      EmitKeeps(C(), Error(e.id));
      if panes.None? {
        trace := trace + [Error(e.id)];
        Finish(n);
        return;
      }
      AnswerKeeps(B(), n, panes.value);
      ghost var answered := Answer(B(), n, panes.value);
      log := log + [Snapshot(n, panes.value)];
      var gate := GateApproval(FindPane(panes.value, e.pane), e.action);
      if !gate.Granted? {
        assert B() == answered;
        trace := trace + [Error(e.id)];
        Finish(n);
        return;
      }
      exchanges := exchanges[n := e.(sent := true)];
      log := log + [Keys(n, e.session, e.pane, gate.keys)];
    }

    /** The daemon's answer to the keys; a refusal is an error on the device. */
    method OnKeysSent(n: nat, accepted: bool)
      requires Valid() && n in exchanges && exchanges[n].sent
      modifies this`exchanges, this`approvalsInFlight, this`log, this`trace
      ensures Valid() && Evolves(old(C()), C()) && B() == Settle(old(B()), n)
      ensures C() == if accepted then old(C()) else Emit(old(C()), Error(old(exchanges)[n].id))
    {
      hide Consistent, Evolves, BookOk;
      SelfEvolves(C());
      if !accepted {
        EmitKeeps(C(), Error(exchanges[n].id));
        trace := trace + [Error(exchanges[n].id)];
      }
      Finish(n);
    }

    method Finish(n: nat)
      requires Valid() && n in exchanges
      modifies this`exchanges, this`approvalsInFlight, this`log
      ensures Valid() && C() == old(C()) && B() == Settle(old(B()), n)
    {
      hide Consistent, BookOk;
      SettleKeeps(B(), n);
      approvalsInFlight := approvalsInFlight - {exchanges[n].id};
      exchanges := exchanges - {n};
      log := log + [Settled(n)];
    }
  }

  predicate NoneReady(sessions: map<string, SessionPhase>) {
    forall s :: s in sessions ==> sessions[s] != Ready
  }

  ghost function SeededFocus(c: Core, focused: Option<nat>, hint: Option<Key>): Option<nat> {
    if focused.Some? && Live(c, focused.value) then focused
    else if hint.Some? && hint.value in c.byKey && Live(c, c.byKey[hint.value]) then Some(c.byKey[hint.value])
    else if LiveIds(c, c.nextId) == [] then None
    else Some(LiveIds(c, c.nextId)[0])
  }

  lemma {:induction false} FirstLive(c: Core, id: nat, n: nat)
    requires id < n && Live(c, id) && LiveIds(c, id) == []
    ensures LiveIds(c, n) != [] && LiveIds(c, n)[0] == id
  {
    if id + 1 < n {
      FirstLive(c, id, n - 1);
    }
  }

  /** What one event does to the rows and the device. */
  ghost function OnEvent(c: Core, session: string, ev: Event): Core
    requires Consistent(c)
  {
    match ev
    case PaneCreated(pane) =>
      if (session, pane.paneId) in c.byKey then c
      else WithBoard(New(c, Row(session, pane.paneId, pane.agent, pane.status, false)))
    case PaneGone(paneId) =>
      if (session, paneId) in c.byKey && Live(c, c.byKey[(session, paneId)]) then WithBoard(End(c, c.byKey[(session, paneId)])) else c
    case AgentDetected(paneId, agent) =>
      if (session, paneId) in c.byKey then
        var id := c.byKey[(session, paneId)];
        Emit(Change(c, id, agent, c.byId[id].status), State(id, DeviceStatus(c.byId[id].status)))
      else c
    case StatusChanged(paneId, status, newAgent) =>
      if (session, paneId) in c.byKey && Live(c, c.byKey[(session, paneId)])
      then OnStatus(c, c.byKey[(session, paneId)], status, newAgent) else c
  }

  /** An agent detected on a pane whose row has ended. */
  predicate OnEndedRow(c: Core, session: string, ev: Event) {
    ev.AgentDetected? && (session, ev.paneId) in c.byKey
      && c.byKey[(session, ev.paneId)] in c.byId && c.byId[c.byKey[(session, ev.paneId)]].ended
  }

  lemma OnEventKeeps(c: Core, session: string, ev: Event)
    requires Consistent(c)
    ensures Consistent(OnEvent(c, session, ev)) && Advances(c, OnEvent(c, session, ev))
    ensures !OnEndedRow(c, session, ev) ==> Evolves(c, OnEvent(c, session, ev))
  {
    hide Consistent, Evolves, Advances, New, End, Change, WithBoard, Emit;
    SelfEvolves(c);
    match ev {
      case PaneCreated(pane) =>
        if (session, pane.paneId) !in c.byKey {
          NewKeeps(c, Row(session, pane.paneId, pane.agent, pane.status, false));
          BoardAfter(c, New(c, Row(session, pane.paneId, pane.agent, pane.status, false)));
        }
      case PaneGone(paneId) =>
        if (session, paneId) in c.byKey && Live(c, c.byKey[(session, paneId)]) {
          EndKeeps(c, c.byKey[(session, paneId)]);
          BoardAfter(c, End(c, c.byKey[(session, paneId)]));
        }
      case AgentDetected(paneId, agent) =>
        KeyLeads(c, (session, paneId));
        if (session, paneId) in c.byKey {
          DetectedKeeps(c, c.byKey[(session, paneId)], agent);
        }
      case StatusChanged(paneId, status, newAgent) =>
        if (session, paneId) in c.byKey && Live(c, c.byKey[(session, paneId)]) {
          OnStatusKeeps(c, c.byKey[(session, paneId)], status, newAgent);
        }
    }
    assert Evolves(c, OnEvent(c, session, ev)) ==> Advances(c, OnEvent(c, session, ev)) by {
      if Evolves(c, OnEvent(c, session, ev)) {
        EvolvesAdvances(c, OnEvent(c, session, ev));
      }
    }
  }

  lemma BoardAfter(a: Core, b: Core)
    requires Consistent(a) && Consistent(b) && Evolves(a, b)
    ensures Consistent(WithBoard(b)) && Evolves(a, WithBoard(b))
  {
    hide Consistent, Evolves, WithBoard;
    BoardKeeps(b);
    EvolvesTrans(a, b, WithBoard(b));
  }

  lemma DetectedKeeps(c: Core, id: nat, agent: string)
    requires Consistent(c) && id in c.byId
    ensures var c' := Emit(Change(c, id, agent, c.byId[id].status), State(id, DeviceStatus(c.byId[id].status)));
      Consistent(c') && Advances(c, c') && (!c.byId[id].ended ==> Evolves(c, c'))
  {
    hide Consistent, Evolves, Advances, Change, Emit;
    var e := State(id, DeviceStatus(c.byId[id].status));
    var c1 := Change(c, id, agent, c.byId[id].status);
    ChangeKeeps(c, id, agent, c.byId[id].status);
    EvolvesAdvances(c, c1);
    EmitAdvances(c1, e);
    AdvancesTrans(c, c1, Emit(c1, e));
    if !c.byId[id].ended {
      assert Live(c, id);
      EmitKeeps(c1, e);
      EvolvesTrans(c, c1, Emit(c1, e));
    }
  }

  lemma OnStatusKeeps(c: Core, id: nat, status: string, newAgent: Option<string>)
    requires Consistent(c) && Live(c, id)
    ensures Consistent(OnStatus(c, id, status, newAgent)) && Evolves(c, OnStatus(c, id, status, newAgent))
  {
    hide Consistent, Evolves, Change, Emit;
    var agent := if newAgent.Some? then newAgent.value else c.byId[id].agent;
    var c1 := Change(c, id, agent, status);
    ChangeKeeps(c, id, agent, status);
    if status != c.byId[id].status {
      var e := State(id, DeviceStatus(status));
      var c2 := Emit(c1, e);
      EmitKeeps(c1, e);
      EmitIs(c1, e);
      EvolvesTrans(c, c1, c2);
      if AlertFor(status).Some? {
        EmitKeeps(c2, Alert(id, AlertFor(status).value));
        EvolvesTrans(c, c2, Emit(c2, Alert(id, AlertFor(status).value)));
      }
    }
  }

  /** Which events send a late state: exactly agents detected on ended rows, and then the state is the only emission. */
  lemma LateIff(c: Core, session: string, ev: Event)
    requires Consistent(c)
    ensures var c' := OnEvent(c, session, ev);
      && c.trace <= c'.trace
      && (OnEndedRow(c, session, ev) <==> exists i: nat :: |c.trace| <= i < |c'.trace| && Late(c'.trace, i))
      && (OnEndedRow(c, session, ev) ==> |c'.trace| == |c.trace| + 1 && Late(c'.trace, |c.trace|))
  {
    hide Consistent, Advances, OnEvent, Late;
    OnEventKeeps(c, session, ev);
    EvolvesTimely(c, OnEvent(c, session, ev));
    if OnEndedRow(c, session, ev) {
      DetectedLate(c, session, ev);
    }
  }

  lemma EvolvesTimely(c: Core, c': Core)
    requires Advances(c, c')
    ensures c.trace <= c'.trace
    ensures Evolves(c, c') ==> !exists i: nat :: |c.trace| <= i < |c'.trace| && Late(c'.trace, i)
  {
    hide Late;
  }

  lemma DetectedLate(c: Core, session: string, ev: Event)
    requires Consistent(c) && OnEndedRow(c, session, ev)
    ensures var c' := OnEvent(c, session, ev); |c'.trace| == |c.trace| + 1 && Late(c'.trace, |c.trace|)
  {
    hide AlertsOrdered, Ended;
    var id := c.byKey[(session, ev.paneId)];
    var c' := OnEvent(c, session, ev);
    assert c'.trace == c.trace + [State(id, DeviceStatus(c.byId[id].status))];
    assert c'.trace[..|c.trace|] == c.trace;
    assert Ended(c.trace, id);
  }

  /** Such an event is possible: a pane is closed, and then its agent is detected. */
  lemma LateExample() returns (c0: Core, c1: Core, c2: Core, c3: Core)
    ensures c0 == Core(map[], map[], 1, []) && Consistent(c0)
    ensures c1 == OnEvent(c0, "", PaneCreated(Pane("p", "claude", "working"))) && Consistent(c1)
    ensures c2 == OnEvent(c1, "", PaneGone("p")) && Consistent(c2)
    ensures c3 == OnEvent(c2, "", AgentDetected("p", "codex"))
    ensures |c3.trace| == |c2.trace| + 1 && Late(c3.trace, |c2.trace|)
  {
    hide Consistent, Advances, Evolves, Late, WithBoard;
    c0 := Core(map[], map[], 1, []);
    NothingConsistent();
    c1 := OnEvent(c0, "", PaneCreated(Pane("p", "claude", "working")));
    OnEventKeeps(c0, "", PaneCreated(Pane("p", "claude", "working")));
    WithBoardRows(New(c0, Row("", "p", "claude", "working", false)));
    c2 := OnEvent(c1, "", PaneGone("p"));
    OnEventKeeps(c1, "", PaneGone("p"));
    WithBoardRows(End(c1, 1));
    c3 := OnEvent(c2, "", AgentDetected("p", "codex"));
    LateIff(c2, "", AgentDetected("p", "codex"));
  }

  lemma WithBoardRows(c: Core)
    ensures WithBoard(c).byId == c.byId && WithBoard(c).byKey == c.byKey
  {
  }

  lemma NothingConsistent()
    ensures Consistent(Core(map[], map[], 1, []))
  {
  }

  ghost function OnStatus(c: Core, id: nat, status: string, newAgent: Option<string>): Core
    requires id in c.byId
  {
    var changed := Change(c, id, if newAgent.Some? then newAgent.value else c.byId[id].agent, status);
    if status == c.byId[id].status then changed
    else
      var told := Emit(changed, State(id, DeviceStatus(status)));
      if AlertFor(status).Some? then Emit(told, Alert(id, AlertFor(status).value)) else told
  }

  /** The alerts of the live rows below n that are blocked or done. */
  function Pending(c: Core, n: nat): seq<Emission> {
    if n == 0 then []
    else
      Pending(c, n - 1)
        + if Live(c, n - 1) && AlertFor(c.byId[n - 1].status).Some? then [Alert(n - 1, AlertFor(c.byId[n - 1].status).value)] else []
  }

  lemma {:induction false} SameRowsPending(c: Core, c': Core, n: nat)
    requires c.byId == c'.byId
    ensures Pending(c, n) == Pending(c', n)
  {
    if n > 0 {
      SameRowsPending(c, c', n - 1);
    }
  }

  /** The channel after a terminal was opened: the old one only where the row's daemon is not known any more. */
  function Respawned(known: bool, spawned: bool, number: nat, id: nat, before: Option<Channel>): Option<Channel> {
    if !known then before else if spawned then Some(Channel(number, id)) else None
  }

  /** What the device hears of a terminal reopened: an error, or nothing yet. */
  function Reopened(id: nat, failed: bool): seq<Emission> {
    if failed then [Error(id)] else []
  }

  /** The ends of a daemon's live rows below n. */
  function Departed(c: Core, session: string, n: nat): seq<Emission> {
    if n == 0 then []
    else
      Departed(c, session, n - 1)
        + if Live(c, n - 1) && c.byId[n - 1].session == session then [Alert(n - 1, SessionEnded)] else []
  }

  /** Rows for the first n panes of a snapshot: a pane with a live row keeps it, any other gets the next id. */
  function WithPanes(c: Core, session: string, panes: seq<Pane>, n: nat): Core
    requires n <= |panes|
  {
    if n == 0 then c
    else
      var c' := WithPanes(c, session, panes, n - 1);
      var p := panes[n - 1];
      var key := (session, p.paneId);
      if key in c'.byKey && Live(c', c'.byKey[key]) then c' else New(c', Row(session, p.paneId, p.agent, p.status, false))
  }

  // ---- runs -------------------------------------------------------------------------------------------------------------------------

  /** Everything that can happen to the bridge, in any order. */
  datatype Happening =
    | Attach
    | NoDiscovery
    | Boot(session: string)
    | Committed(session: string, panes: seq<Pane>)
    | Booted(session: string)
    | BootError(session: string)
    | AllSettled(hint: Option<Key>, spawns: seq<bool>)
    | Push(session: string, event: Event)
    | Lost(session: string)
    | FocusOn(id: nat, spawned: bool)
    | Data(channel: Channel)
    | Exit(channel: Channel)
    | Sync(target: Option<nat>, spawned: bool)
    | Tap(id: nat, action: Action)
    | SnapshotBack(n: nat, snapshot: Option<seq<Pane>>)
    | KeysBack(n: nat, accepted: bool)

  method Happen(b: HerdrBridge, h: Happening)
    requires b.Valid()
    modifies b
    ensures b.Valid() && Advances(old(b.C()), b.C()) && OnTime(old(b.C()), b.C(), h)
    ensures Logged(old(b.log), b.log, b.byId)
  {
    hide Consistent, Evolves, Advances, BookOk, OnEvent, OnTime, OnEndedRow, Logged;
    ghost var c := b.C();
    SelfEvolves(c);
    NothingLogged(b.log);
    if h.Push? {
      b.HandleEvent(h.session, h.event);
      PushOnTime(c, h.session, h.event);
      return;
    }
    Respond(b, h);
    EvolvesAdvances(c, b.C());
    EvolvesOnTime(c, b.C(), h);
  }

  /** In one step only an agent detected on an ended row sends a late state, and it sends nothing else. */
  ghost predicate OnTime(c: Core, c': Core, h: Happening) {
    && |c.trace| <= |c'.trace|
    && (forall i: nat :: |c.trace| <= i < |c'.trace| ==> (Late(c'.trace, i) <==> Detects(c, h) && i == |c.trace|))
    && (Detects(c, h) ==> |c'.trace| == |c.trace| + 1)
  }

  predicate Detects(c: Core, h: Happening) {
    h.Push? && OnEndedRow(c, h.session, h.event)
  }

  lemma PushOnTime(c: Core, session: string, ev: Event)
    requires Consistent(c)
    ensures OnTime(c, OnEvent(c, session, ev), Push(session, ev))
  {
    hide Consistent, OnEvent, Late, OnEndedRow;
    LateIff(c, session, ev);
  }

  lemma EvolvesOnTime(c: Core, c': Core, h: Happening)
    requires Evolves(c, c') && !h.Push?
    ensures OnTime(c, c', h)
  {
    hide Late;
  }

  // ---- what the exchanges aim at ----------------------------------------------------------------------------------------------

  /** The intent is for a live row, and for that row's session and pane. */
  predicate Aimed(byId: map<nat, Row>, e: Entry) {
    e.Intent? && e.id in byId && !byId[e.id].ended && KeyOf(byId[e.id]) == (e.session, e.pane)
  }

  /** Entries were added, the intents among them for live rows. */
  ghost predicate Logged(before: seq<Entry>, after: seq<Entry>, byId: map<nat, Row>) {
    before <= after && forall i :: |before| <= i < |after| && after[i].Intent? ==> Aimed(byId, after[i])
  }

  lemma NothingLogged(log: seq<Entry>)
    ensures forall byId :: Logged(log, log, byId)
  {
  }

  lemma BeginLogged(log: seq<Entry>, b: Book, e: Exchange, byId: map<nat, Row>)
    requires Logged(log, b.log, byId) && Aimed(byId, IntentOf(b.next, e))
    ensures Logged(log, Begin(b, e).log, byId)
  {
  }

  lemma AnswerLogged(b: Book, n: nat, panes: seq<Pane>, byId: map<nat, Row>)
    requires n in b.open
    ensures Logged(b.log, Answer(b, n, panes).log, byId)
  {
    hide FindPane, GateApproval;
  }

  lemma SettleLogged(log: seq<Entry>, b: Book, n: nat, byId: map<nat, Row>)
    requires n in b.open && Logged(log, b.log, byId)
    ensures Logged(log, Settle(b, n).log, byId)
  {
  }

  /** The bridge comes up and answers the requests that waited, in order. */
  method ComeUp(b: HerdrBridge, hint: Option<Key>, spawned: seq<bool>)
    requires b.Valid()
    modifies b
    ensures b.Valid() && Evolves(old(b.C()), b.C()) && Logged(old(b.log), b.log, b.byId)
  {
    hide Consistent, Evolves, BookOk, Logged;
    ghost var c := b.C();
    NothingLogged(b.log);
    var ops := b.AllBooted(hint);
    for i := 0 to |ops|
      invariant b.Valid() && Evolves(c, b.C()) && Logged(old(b.log), b.log, b.byId)
    {
      ghost var before := b.C();
      SelfEvolves(before);
      match ops[i] {
        case QueuedResync(id) => b.Resync(id, i < |spawned| && spawned[i]);
        case QueuedFocus(id) => b.Focus(id, i < |spawned| && spawned[i]);
        case QueuedTap(id, action) => Tapped(b, id, action, old(b.log));
      }
      EvolvesTrans(c, before, b.C());
    }
  }

  method Tapped(b: HerdrBridge, id: nat, action: Action, ghost log: seq<Entry>)
    requires b.Valid() && Logged(log, b.log, b.byId)
    modifies b
    ensures b.Valid() && b.C() == old(b.C()) && Logged(log, b.log, b.byId)
  {
    hide Consistent, BookOk, Logged;
    ghost var book := b.B();
    var n := b.Approve(id, action);
    if n.Some? {
      BeginLogged(log, book, Exchange(id, b.byId[id].session, b.byId[id].pane, action, false), b.byId);
    }
  }

  method SnapshotArrives(b: HerdrBridge, n: nat, snapshot: Option<seq<Pane>>)
    requires b.Valid() && n in b.exchanges && !b.exchanges[n].sent
    modifies b
    ensures b.Valid() && Evolves(old(b.C()), b.C()) && Logged(old(b.log), b.log, b.byId)
  {
    hide Consistent, Evolves, BookOk, Logged, Answer, Settle, GateApproval, FindPane;
    ghost var book := b.B();
    b.OnSnapshot(n, snapshot);
    NothingLogged(book.log);
    SettleLogged(book.log, book, n, b.byId);
    if snapshot.Some? {
      AnswerLogged(book, n, snapshot.value, b.byId);
      StillOpen(book, n, snapshot.value);
      SettleLogged(book.log, Answer(book, n, snapshot.value), n, b.byId);
    }
  }

  lemma StillOpen(b: Book, n: nat, panes: seq<Pane>)
    requires n in b.open
    ensures n in Answer(b, n, panes).open
  {
  }

  /** Everything but events. */
  method Respond(b: HerdrBridge, h: Happening)
    requires b.Valid() && !h.Push?
    modifies b
    ensures b.Valid() && Evolves(old(b.C()), b.C()) && Logged(old(b.log), b.log, b.byId)
  {
    hide Consistent, Evolves, BookOk, Logged;
    SelfEvolves(b.C());
    NothingLogged(b.log);
    match h {
      case Attach => b.Start();
      case NoDiscovery => b.DiscoveryFailed();
      case Boot(session) => b.EnsureClient(session);
      case Committed(session, panes) => b.CommitPanes(session, panes);
      case Booted(session) => b.BootReady(session);
      case BootError(session) => b.BootFailed(session);
      case AllSettled(hint, spawned) => ComeUp(b, hint, spawned);
      case Lost(session) => b.OnDaemonLost(session);
      case FocusOn(id, spawned) => b.Focus(id, spawned);
      case Data(channel) => b.ChannelData(channel);
      case Sync(target, spawned) => b.Resync(target, spawned);
      case Exit(channel) => b.ChannelExit(channel);
      case Tap(id, action) => Tapped(b, id, action, old(b.log));
      case SnapshotBack(n, snapshot) =>
        if n in b.exchanges && !b.exchanges[n].sent {
          SnapshotArrives(b, n, snapshot);
        }
      case KeysBack(n, accepted) =>
        if n in b.exchanges && b.exchanges[n].sent {
          ghost var book := b.B();
          b.OnKeysSent(n, accepted);
          SettleLogged(book.log, book, n, b.byId);
        }
    }
  }

  /** Every state was consistent, and what was once so for an id stayed so in every later state: a device id is never given
      to another pane, nor again after its row was dropped. */
  ghost predicate History(states: seq<Core>) {
    && (forall i :: 0 <= i < |states| ==> Consistent(states[i]))
    && (forall i, j :: 0 <= i < j < |states| ==> Advances(states[i], states[j]))
  }

  lemma HistoryMore(states: seq<Core>, c: Core)
    requires History(states) && |states| > 0 && Consistent(c) && Advances(states[|states| - 1], c)
    ensures History(states + [c])
  {
    hide Consistent, Advances;
    var more := states + [c];
    forall i, j | 0 <= i < j < |more| ensures Advances(more[i], more[j]) {
      if j == |states| && i < |states| - 1 {
        AdvancesTrans(states[i], states[|states| - 1], c);
      }
    }
  }

  /** Position i of the trace was emitted in the first n steps by an agent detected on an ended row. */
  ghost predicate Detected(states: seq<Core>, happenings: seq<Happening>, n: nat, i: nat)
    requires n <= |happenings| && n <= |states|
  {
    exists k: nat :: k < n && Detects(states[k], happenings[k]) && |states[k].trace| == i
  }

  /** The late states of a run are those of agents detected on ended rows, and no others. */
  ghost predicate LateOnly(states: seq<Core>, happenings: seq<Happening>, n: nat)
    requires n <= |happenings| && n < |states|
  {
    forall i: nat :: i < |states[n].trace| ==> (Late(states[n].trace, i) <==> Detected(states, happenings, n, i))
  }

  lemma LateOnlyMore(states: seq<Core>, happenings: seq<Happening>, n: nat, c: Core)
    requires n < |happenings| && |states| == n + 1 && LateOnly(states, happenings, n) && OnTime(states[n], c, happenings[n])
    requires Advances(states[n], c) && forall k :: 0 <= k < n ==> |states[k].trace| <= |states[n].trace|
    requires forall k :: 0 <= k < n && Detects(states[k], happenings[k]) ==> |states[k].trace| < |states[n].trace|
    ensures LateOnly(states + [c], happenings, n + 1)
    ensures forall k :: 0 <= k < n + 1 ==> |states[k].trace| <= |c.trace|
    ensures forall k :: 0 <= k < n + 1 && Detects(states[k], happenings[k]) ==> |states[k].trace| < |c.trace|
  {
    hide Late, Detects;
    var more := states + [c];
    forall i: nat | i < |c.trace| ensures Late(c.trace, i) <==> Detected(more, happenings, n + 1, i) {
      DetectedMore(states, happenings, n, c, i);
      if i < |states[n].trace| {
        LatePrefix(states[n].trace, c.trace, i);
      }
    }
  }

  lemma DetectedMore(states: seq<Core>, happenings: seq<Happening>, n: nat, c: Core, i: nat)
    requires n < |happenings| && |states| == n + 1
    ensures Detected(states + [c], happenings, n + 1, i) <==>
      Detected(states, happenings, n, i) || (Detects(states[n], happenings[n]) && |states[n].trace| == i)
  {
    hide Detects;
    var more := states + [c];
    assert forall k :: 0 <= k <= n ==> more[k] == states[k];
    if Detected(states, happenings, n, i) {
      var k: nat :| k < n && Detects(states[k], happenings[k]) && |states[k].trace| == i;
      assert Detects(more[k], happenings[k]);
    }
    if Detects(states[n], happenings[n]) && |states[n].trace| == i {
      assert Detects(more[n], happenings[n]);
    }
  }

  /** Some state of the run has a live row with this id, and every state that knows the id has it on this pane. */
  ghost predicate RowOf(states: seq<Core>, id: nat, key: Key) {
    && (exists k :: 0 <= k < |states| && Live(states[k], id))
    && (forall k :: 0 <= k < |states| && id in states[k].byId ==> KeyOf(states[k].byId[id]) == key)
  }

  lemma RowOfNow(states: seq<Core>, id: nat)
    requires History(states) && |states| > 0 && Live(states[|states| - 1], id)
    ensures RowOf(states, id, KeyOf(states[|states| - 1].byId[id]))
  {
    hide Consistent;
  }

  lemma RowOfMore(states: seq<Core>, c: Core, id: nat, key: Key)
    requires History(states + [c]) && RowOf(states, id, key)
    ensures RowOf(states + [c], id, key)
  {
    hide Consistent, Advances;
    var k :| 0 <= k < |states| && Live(states[k], id);
    var more := states + [c];
    assert more[k] == states[k] && more[|states|] == c && Advances(more[k], more[|states|]);
    if id in c.byId {
      PaneKept(states[k], c, id);
    }
  }

  lemma PaneKept(c: Core, c': Core, id: nat)
    requires Advances(c, c') && id in c.byId && id in c'.byId
    ensures KeyOf(c'.byId[id]) == KeyOf(c.byId[id])
  {
  }

  /** Every intent goes to the pane of the row that was tapped. */
  ghost predicate AllAimed(states: seq<Core>, log: seq<Entry>) {
    forall i :: 0 <= i < |log| && log[i].Intent? ==> RowOf(states, log[i].id, (log[i].session, log[i].pane))
  }

  lemma AllAimedMore(states: seq<Core>, c: Core, before: seq<Entry>, after: seq<Entry>)
    requires History(states + [c]) && AllAimed(states, before) && Logged(before, after, c.byId)
    ensures AllAimed(states + [c], after)
  {
    hide History, RowOf;
    forall i | 0 <= i < |after| && after[i].Intent?
      ensures RowOf(states + [c], after[i].id, (after[i].session, after[i].pane))
    {
      if i < |before| {
        assert after[i] == before[i];
        RowOfMore(states, c, after[i].id, (after[i].session, after[i].pane));
      } else {
        assert Aimed(c.byId, after[i]);
        RowOfNow(states + [c], after[i].id);
      }
    }
  }

  /** After any interleaving: the whole history is consistent, session_ended is the last alert of its id, no two approvals
      of one id overlap, and keys were sent only to the pane of the row that was tapped, as the table prescribes for a pane
      blocked in a snapshot asked for after the tap. */
  method RunAll(single: bool, happenings: seq<Happening>)
    returns (rows: map<nat, Row>, ghost states: seq<Core>, ghost log: seq<Entry>)
    ensures |states| == |happenings| + 1 && History(states) && states[|happenings|].byId == rows
    ensures AlertsOrdered(states[|happenings|].trace) && LogOk(log) && LateOnly(states, happenings, |happenings|)
    ensures AllAimed(states, log)
    ensures forall i :: 0 <= i < |log| && log[i].Keys? ==>
      exists a, c, p {:trigger log[a], log[c], p in log[c].panes} :: (
        && 0 <= a < c < i && log[a].Intent? && log[a].n == log[i].n
        && log[a].session == log[i].session && log[a].pane == log[i].pane
        && log[c].Snapshot? && log[c].n == log[i].n && p in log[c].panes && p.paneId == log[i].pane && p.status == "blocked"
        && p.agent in {"codex", "cursor", "claude", "omp", "opencode"}
        && log[i].keys == (
          if p.agent == "codex" || p.agent == "cursor" then (if log[a].action == Approve then ["y"] else ["n"])
          else if log[a].action == Approve then ["enter"]
          else if p.agent == "opencode" then ["esc", "enter"] else ["esc"]))
    ensures forall a, b :: a in rows && b in rows && !rows[a].ended && !rows[b].ended && KeyOf(rows[a]) == KeyOf(rows[b]) ==> a == b
  {
    hide Evolves, Advances, BookOk, LogOk, Ended, History, LateOnly, OnTime, Detects, Logged, AllAimed;
    var b := new HerdrBridge(single);
    states := [b.C()];
    OneState(b.C(), happenings);
    for i := 0 to |happenings|
      invariant fresh(b) && b.Valid()
      invariant |states| == i + 1 && states[i] == b.C() && History(states) && LateOnly(states, happenings, i)
      invariant AllAimed(states, b.log)
      invariant forall k :: 0 <= k < i ==> |states[k].trace| <= |states[i].trace|
      invariant forall k :: 0 <= k < i && Detects(states[k], happenings[k]) ==> |states[k].trace| < |states[i].trace|
    {
      ghost var before := b.log;
      Happen(b, happenings[i]);
      HistoryMore(states, b.C());
      AllAimedMore(states, b.C(), before, b.log);
      LateOnlyMore(states, happenings, i, b.C());
      states := states + [b.C()];
    }
    BookLog(b.B());
    LogPresses(b.log);
    log, rows := b.log, b.byId;
    forall x, y | x in rows && y in rows && !rows[x].ended && !rows[y].ended && KeyOf(rows[x]) == KeyOf(rows[y]) ensures x == y {
      OneLiveRow(b.C(), x, y);
    }
  }

  lemma OneState(c: Core, happenings: seq<Happening>)
    requires Consistent(c) && c.trace == []
    ensures History([c]) && LateOnly([c], happenings, 0) && AllAimed([c], [])
  {
  }

  lemma BookLog(b: Book)
    requires BookOk(b)
    ensures LogOk(b.log)
  {
  }

  lemma EmitIs(c: Core, e: Emission)
    ensures Emit(c, e) == c.(trace := c.trace + [e])
  {
  }

  lemma AllBelow(c: Core)
    requires Consistent(c)
    ensures forall id :: id in c.byId ==> id < c.nextId
  {
  }

  /** Some live row has this key. */
  ghost predicate Rowed(c: Core, k: Key) {
    k in c.byKey && Live(c, c.byKey[k])
  }

  lemma RowedNow(c: Core, id: nat)
    requires Consistent(c) && Live(c, id)
    ensures Rowed(c, KeyOf(c.byId[id]))
  {
  }

  lemma RowedStill(c: Core, c': Core, r: Row, k: Key)
    requires Consistent(c) && Rowed(c, k) && !r.ended && (c' == c || c' == New(c, r))
    ensures Rowed(c', k)
  {
  }

  lemma KeyLeads(c: Core, k: Key)
    requires Consistent(c)
    ensures k in c.byKey ==> c.byKey[k] in c.byId && KeyOf(c.byId[c.byKey[k]]) == k
  {
  }

  /** The rows left when those of a session below n are gone. */
  function Kept(m: map<nat, Row>, session: string, n: nat): map<nat, Row> {
    map x | x in m && !(x < n && m[x].session == session) :: m[x]
  }

  /** The rows when those of a session below n have ended. */
  function Closed(m: map<nat, Row>, session: string, n: nat): map<nat, Row> {
    map x | x in m :: if x < n && m[x].session == session then m[x].(ended := true) else m[x]
  }

  lemma NothingClosed(m: map<nat, Row>, session: string)
    ensures Closed(m, session, 0) == m
  {
  }

  lemma ClosedStep(m: map<nat, Row>, session: string, id: nat)
    ensures id in Closed(m, session, id) <==> id in m
    ensures id in m ==> Closed(m, session, id)[id] == m[id]
    ensures Closed(m, session, id + 1) ==
      if id in m && m[id].session == session then Closed(m, session, id)[id := m[id].(ended := true)] else Closed(m, session, id)
  {
  }

  lemma AllClosed(c: Core, c': Core, session: string)
    requires c'.byId == Closed(c.byId, session, c.nextId) && forall id :: id in c.byId ==> id < c.nextId
    ensures forall id :: Live(c', id) <==> Live(c, id) && c.byId[id].session != session
    ensures forall id :: id in c.byId && c.byId[id].session != session ==> id in c'.byId && c'.byId[id] == c.byId[id]
  {
  }

  /** The keys left then; a key may go before the row it leads to. */
  ghost predicate KeysLeft(c: Core, session: string, n: nat, byKey: map<Key, nat>) {
    && (forall k :: k in byKey ==> k in c.byKey && byKey[k] == c.byKey[k] && !(k.0 == session && c.byKey[k] < n))
    && (forall k :: k in c.byKey && k.0 != session ==> k in byKey)
  }

  lemma NothingDropped(c: Core, session: string)
    ensures Kept(c.byId, session, 0) == c.byId && KeysLeft(c, session, 0, c.byKey)
  {
  }

  lemma KeptStep(m: map<nat, Row>, session: string, id: nat)
    ensures id in Kept(m, session, id) <==> id in m
    ensures id in m ==> Kept(m, session, id)[id] == m[id]
    ensures Kept(m, session, id + 1) ==
      if id in m && m[id].session == session then Kept(m, session, id) - {id} else Kept(m, session, id)
  {
  }

  lemma KeysStep(c: Core, session: string, id: nat, byKey: map<Key, nat>)
    requires Consistent(c) && KeysLeft(c, session, id, byKey)
    ensures KeysLeft(c, session, id + 1,
              if id in c.byId && c.byId[id].session == session then byKey - {KeyOf(c.byId[id])} else byKey)
  {
    hide Ended, AlertsOrdered;
    forall k | k in byKey && c.byKey[k] == id ensures id in c.byId && KeyOf(c.byId[id]) == k {
    }
  }

  lemma AllDropped(c: Core, session: string, byKey: map<Key, nat>)
    requires Consistent(c) && KeysLeft(c, session, c.nextId, byKey)
    ensures ForgetAll(c, session) == c.(byId := Kept(c.byId, session, c.nextId), byKey := byKey)
    ensures forall id :: id in c.byId ==> id < c.nextId
  {
    hide Ended, AlertsOrdered;
    forall k | k in byKey ensures k in ForgetAll(c, session).byKey {
      assert c.byKey[k] in c.byId;
    }
  }
}
