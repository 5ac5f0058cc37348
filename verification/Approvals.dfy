/** Watched-screen approvals: the key table and the fresh-snapshot gate. */
module Approvals {
  import BoardModel

  datatype Action = Approve | Reject

  datatype KindKeys = KindKeys(approve: seq<string>, reject: seq<string>)

  /** The compiled table. */
  const KIND_KEYS: map<string, KindKeys> :=
    map["codex" := KindKeys(["y"], ["n"]),
        "cursor" := KindKeys(["y"], ["n"]),
        "claude" := KindKeys(["enter"], ["esc"]),
        "omp" := KindKeys(["enter"], ["esc"]),
        "opencode" := KindKeys(["enter"], ["esc", "enter"])]

  datatype Option<T> = None | Some(value: T)

  function ApprovalKeys(kind: string, action: Action): Option<seq<string>> {
    if kind !in KIND_KEYS then None
    else Some(if action == Approve then KIND_KEYS[kind].approve else KIND_KEYS[kind].reject)
  }

  datatype Pane = Pane(paneId: string, agent: string, status: string)

  datatype Gate = Granted(keys: seq<string>) | Stale | NotBlocked | Unmapped(kind: string)

  function GateApproval(pane: Option<Pane>, action: Action): Gate {
    if pane.None? then Stale
    else if pane.value.status != "blocked" then NotBlocked
    else
      match ApprovalKeys(pane.value.agent, action)
      case None => Unmapped(pane.value.agent)
      case Some(keys) => Granted(keys)
  }

  /** The first pane of that id in a snapshot. */
  function FindPane(panes: seq<Pane>, id: string): (p: Option<Pane>)
    ensures p.Some? ==> exists k :: (
      && 0 <= k < |panes| && panes[k] == p.value && panes[k].paneId == id
      && forall j :: 0 <= j < k ==> panes[j].paneId != id)
    ensures p.None? ==> forall k :: 0 <= k < |panes| ==> panes[k].paneId != id
  {
    if panes == [] then None else if panes[0].paneId == id then Some(panes[0]) else FindPane(panes[1..], id)
  }

  /** The host grants keys exactly for a blocked pane of a kind that the device offers Accept and Deny for: y and n for
      codex and cursor; enter, and esc for claude and omp; enter, and esc and then enter for opencode. */
  lemma GrantedIff(pane: Option<Pane>, action: Action)
    ensures GateApproval(pane, action).Granted? <==>
      pane.Some? && pane.value.status == "blocked" && pane.value.agent in BoardModel.ALLOWLIST
    ensures GateApproval(pane, action).Granted? ==>
      GateApproval(pane, action).keys == (
        if pane.value.agent == "codex" || pane.value.agent == "cursor" then (if action == Approve then ["y"] else ["n"])
        else if action == Approve then ["enter"]
        else if pane.value.agent == "opencode" then ["esc", "enter"] else ["esc"])
    ensures GateApproval(pane, action).Stale? <==> pane.None?
    ensures GateApproval(pane, action).NotBlocked? <==> pane.Some? && pane.value.status != "blocked"
  {
    if pane.Some? {
      var k := pane.value.agent;
      assert k in KIND_KEYS <==> k in BoardModel.ALLOWLIST by {
        var a := BoardModel.ALLOWLIST;
        assert a[0] == "codex" && a[1] == "cursor" && a[2] == "claude" && a[3] == "omp" && a[4] == "opencode";
      }
    }
  }

  // ---- exchanges in flight -------------------------------------------------------------------------------------------------

  /** One approval under way: for which device id, on which pane, and whether its keys were sent. */
  datatype Exchange = Exchange(id: nat, session: string, pane: string, action: Action, sent: bool)

  /** What happened, in order; n numbers the exchanges. */
  datatype Entry =
    | Intent(n: nat, id: nat, session: string, pane: string, action: Action)
    | Asked(n: nat)
    | Snapshot(n: nat, panes: seq<Pane>)
    | Keys(n: nat, session: string, pane: string, keys: seq<string>)
    | Settled(n: nat)

  /** The open exchanges, the ids marked as in flight, the history, and the next number. */
  datatype Book = Book(open: map<nat, Exchange>, inFlight: set<nat>, log: seq<Entry>, next: nat)

  predicate KeysFor(panes: seq<Pane>, pane: string, action: Action, keys: seq<string>) {
    GateApproval(FindPane(panes, pane), action) == Granted(keys)
  }

  /** The keys at i go to the pane of the intent at a; the snapshot at c, asked for at b, shows it blocked and of a kind
      with exactly these keys. */
  predicate Answers(log: seq<Entry>, i: nat, a: nat, b: nat, c: nat) {
    && a < b < c < i < |log| && log[i].Keys?
    && log[a].Intent? && log[a].n == log[i].n && log[a].session == log[i].session && log[a].pane == log[i].pane
    && log[b] == Asked(log[i].n)
    && log[c].Snapshot? && log[c].n == log[i].n && KeysFor(log[c].panes, log[i].pane, log[a].action, log[i].keys)
  }

  /** Keys at position i answer an intent. */
  ghost predicate Justified(log: seq<Entry>, i: nat) {
    exists a: nat, b: nat, c: nat :: Answers(log, i, a, b, c)
  }

  /** The exchange of the earlier intent was settled before the later one for the same id. */
  ghost predicate SettledBetween(log: seq<Entry>, i: nat, j: nat)
    requires i < j < |log| && log[i].Intent?
  {
    exists k: nat :: i < k < j && log[k] == Settled(log[i].n)
  }

  ghost predicate LogOk(log: seq<Entry>) {
    && (forall i: nat :: i < |log| && log[i].Keys? ==> Justified(log, i))
    && (forall i: nat, j: nat :: i < j < |log| && log[i].Keys? && log[j].Keys? ==> log[i].n != log[j].n)
    && (forall i: nat, j: nat :: i < j < |log| && log[i].Intent? && log[j].Intent? && log[i].id == log[j].id ==>
          SettledBetween(log, i, j))
  }

  function IntentOf(n: nat, e: Exchange): Entry {
    Intent(n, e.id, e.session, e.pane, e.action)
  }

  /** The history of one open exchange. */
  ghost predicate Tracked(log: seq<Entry>, n: nat, e: Exchange) {
    && (exists a: nat, b: nat :: a < b < |log| && log[a] == IntentOf(n, e) && log[b] == Asked(n))
    && (!e.sent ==> forall i :: 0 <= i < |log| ==> !(log[i].Keys? && log[i].n == n))
  }

  ghost predicate BookOk(b: Book) {
    && LogOk(b.log)
    && (forall n :: n in b.open ==> n < b.next && b.open[n].id in b.inFlight && Tracked(b.log, n, b.open[n]))
    && (forall n, m :: n in b.open && m in b.open && n != m ==> b.open[n].id != b.open[m].id)
    && (forall i :: 0 <= i < |b.log| ==> b.log[i].n < b.next)
    && (forall i: nat :: i < |b.log| && b.log[i].Intent? ==>
          Opened(b.open, b.log[i].n, b.log[i].id) || SettledAfter(b.log, i))
  }

  ghost predicate SettledAfter(log: seq<Entry>, i: nat)
    requires i < |log|
  {
    exists k: nat :: i < k < |log| && log[k] == Settled(log[i].n)
  }

  predicate Opened(open: map<nat, Exchange>, n: nat, id: nat) {
    n in open && open[n].id == id
  }

  /** A new exchange and its snapshot request. */
  function Begin(b: Book, e: Exchange): Book {
    Book(b.open[b.next := e], b.inFlight + {e.id}, b.log + [IntentOf(b.next, e), Asked(b.next)], b.next + 1)
  }

  lemma JustifiedMore(log: seq<Entry>, more: seq<Entry>, i: nat)
    requires Justified(log, i)
    ensures Justified(log + more, i)
  {
    hide Answers;
    var a: nat, b: nat, c: nat :| Answers(log, i, a, b, c);
    AnswersMore(log, more, i, a, b, c);
  }

  lemma AnswersMore(log: seq<Entry>, more: seq<Entry>, i: nat, a: nat, b: nat, c: nat)
    requires Answers(log, i, a, b, c)
    ensures Answers(log + more, i, a, b, c)
  {
    hide KeysFor;
    var l := log + more;
    assert l[a] == log[a] && l[b] == log[b] && l[c] == log[c] && l[i] == log[i];
  }

  lemma SettledMore(log: seq<Entry>, more: seq<Entry>, i: nat, j: nat)
    requires i < j < |log| && log[i].Intent? && SettledBetween(log, i, j)
    ensures SettledBetween(log + more, i, j)
  {
    var k: nat :| i < k < j && log[k] == Settled(log[i].n);
    assert (log + more)[k] == log[k];
  }

  lemma TrackedMore(log: seq<Entry>, more: seq<Entry>, n: nat, e: Exchange)
    requires Tracked(log, n, e) && forall i :: 0 <= i < |more| ==> !(more[i].Keys? && more[i].n == n)
    ensures Tracked(log + more, n, e)
  {
    var a: nat, b: nat :| a < b < |log| && log[a] == IntentOf(n, e) && log[b] == Asked(n);
    var l := log + more;
    assert l[a] == log[a] && l[b] == log[b];
  }

  /** Entries that are neither intents nor keys keep the history in order. */
  lemma LogMore(log: seq<Entry>, e: Entry)
    requires LogOk(log) && !e.Keys? && !e.Intent?
    ensures LogOk(log + [e])
  {
    hide Justified, SettledBetween;
    var l := log + [e];
    forall i: nat | i < |l| && l[i].Keys? ensures Justified(l, i) {
      JustifiedMore(log, [e], i);
    }
    forall i: nat, j: nat | i < j < |l| && l[i].Intent? && l[j].Intent? && l[i].id == l[j].id ensures SettledBetween(l, i, j) {
      SettledMore(log, [e], i, j);
    }
  }

  lemma SettledAfterMore(log: seq<Entry>, more: seq<Entry>, i: nat)
    requires i < |log| && SettledAfter(log, i)
    ensures SettledAfter(log + more, i)
  {
    var k: nat :| i < k < |log| && log[k] == Settled(log[i].n);
    assert (log + more)[k] == log[k];
  }

  /** An intent for an id with nothing in flight. */
  lemma BeginLog(b: Book, e: Exchange)
    requires BookOk(b) && e.id !in b.inFlight
    ensures LogOk(b.log + [IntentOf(b.next, e)])
  {
    hide Justified, SettledBetween, Tracked, SettledAfter;
    var entry := IntentOf(b.next, e);
    var l := b.log + [entry];
    forall i: nat | i < |l| && l[i].Keys? ensures Justified(l, i) {
      JustifiedMore(b.log, [entry], i);
    }
    forall i: nat, j: nat | i < j < |l| && l[i].Intent? && l[j].Intent? && l[i].id == l[j].id ensures SettledBetween(l, i, j) {
      if j < |b.log| {
        SettledMore(b.log, [entry], i, j);
      } else {
        assert l[i] == b.log[i];
        SettledNow(b.log, entry, i);
      }
    }
  }

  lemma SettledNow(log: seq<Entry>, entry: Entry, i: nat)
    requires i < |log| && log[i].Intent? && SettledAfter(log, i)
    ensures SettledBetween(log + [entry], i, |log|)
  {
    var k: nat :| i < k < |log| && log[k] == Settled(log[i].n);
    assert (log + [entry])[k] == log[k];
  }

  lemma BeginKeeps(b: Book, e: Exchange)
    requires BookOk(b) && e.id !in b.inFlight && !e.sent
    ensures BookOk(Begin(b, e))
  {
    hide LogOk, Tracked, SettledAfter;
    var l1 := b.log + [IntentOf(b.next, e)];
    var more := [IntentOf(b.next, e), Asked(b.next)];
    BeginLog(b, e);
    LogMore(l1, Asked(b.next));
    assert l1 + [Asked(b.next)] == b.log + more;
    var b' := Begin(b, e);
    forall n | n in b'.open ensures Tracked(b'.log, n, b'.open[n]) {
      if n == b.next {
        BeginTracked(b.log, b.next, e);
      } else {
        TrackedMore(b.log, more, n, b.open[n]);
      }
    }
    forall i: nat | i < |b'.log| && b'.log[i].Intent?
      ensures Opened(b'.open, b'.log[i].n, b'.log[i].id) || SettledAfter(b'.log, i)
    {
      if i < |b.log| && SettledAfter(b.log, i) {
        SettledAfterMore(b.log, more, i);
      }
    }
  }

  lemma BeginTracked(log: seq<Entry>, n: nat, e: Exchange)
    requires !e.sent && forall i :: 0 <= i < |log| ==> log[i].n < n
    ensures Tracked(log + [IntentOf(n, e), Asked(n)], n, e)
  {
    var l := log + [IntentOf(n, e), Asked(n)];
    assert l[|log|] == IntentOf(n, e) && l[|log| + 1] == Asked(n);
  }

  // ---- the answer ------------------------------------------------------------------------------------------------------------

  /** The snapshot arrives; on a passed gate the keys go out. */
  function Answer(b: Book, n: nat, panes: seq<Pane>): Book
    requires n in b.open
  {
    var e := b.open[n];
    var got := b.log + [Snapshot(n, panes)];
    match GateApproval(FindPane(panes, e.pane), e.action)
    case Granted(keys) => b.(open := b.open[n := e.(sent := true)], log := got + [Keys(n, e.session, e.pane, keys)])
    case _ => b.(log := got)
  }

  lemma KeysJustified(log: seq<Entry>, n: nat, e: Exchange, panes: seq<Pane>, keys: seq<string>)
    requires Tracked(log, n, e) && KeysFor(panes, e.pane, e.action, keys)
    ensures Justified(log + [Snapshot(n, panes), Keys(n, e.session, e.pane, keys)], |log| + 1)
  {
    hide KeysFor;
    var a: nat, b: nat :| a < b < |log| && log[a] == IntentOf(n, e) && log[b] == Asked(n);
    var l := log + [Snapshot(n, panes), Keys(n, e.session, e.pane, keys)];
    assert l[a] == log[a] && l[b] == log[b] && l[|log|] == Snapshot(n, panes);
    assert l[|log| + 1] == Keys(n, e.session, e.pane, keys);
    assert Answers(l, |log| + 1, a, b, |log|);
  }

  lemma AnswerLog(b: Book, n: nat, panes: seq<Pane>)
    requires BookOk(b) && n in b.open && !b.open[n].sent
    ensures LogOk(Answer(b, n, panes).log)
  {
    hide Justified, SettledBetween, SettledAfter, FindPane, GateApproval;
    var e := b.open[n];
    var got := b.log + [Snapshot(n, panes)];
    LogMore(b.log, Snapshot(n, panes));
    var gate := GateApproval(FindPane(panes, e.pane), e.action);
    if gate.Granted? {
      var entry := Keys(n, e.session, e.pane, gate.keys);
      var l := got + [entry];
      assert l == b.log + [Snapshot(n, panes), entry];
      KeysJustified(b.log, n, e, panes, gate.keys);
      forall i: nat | i < |l| && l[i].Keys? ensures Justified(l, i) {
        if i < |got| {
          JustifiedMore(got, [entry], i);
        }
      }
      forall i: nat, j: nat | i < j < |l| && l[i].Intent? && l[j].Intent? && l[i].id == l[j].id ensures SettledBetween(l, i, j) {
        SettledMore(got, [entry], i, j);
      }
      assert forall i :: 0 <= i < |b.log| ==> !(b.log[i].Keys? && b.log[i].n == n);
    }
  }

  lemma AnswerKeeps(b: Book, n: nat, panes: seq<Pane>)
    requires BookOk(b) && n in b.open && !b.open[n].sent
    ensures BookOk(Answer(b, n, panes))
  {
    hide LogOk, Tracked, SettledAfter, FindPane, GateApproval;
    AnswerLog(b, n, panes);
    var b', e := Answer(b, n, panes), b.open[n];
    var gate := GateApproval(FindPane(panes, e.pane), e.action);
    var more := [Snapshot(n, panes)] + if gate.Granted? then [Keys(n, e.session, e.pane, gate.keys)] else [];
    assert b'.log == b.log + more;
    forall m | m in b'.open ensures Tracked(b'.log, m, b'.open[m]) {
      if m == n && gate.Granted? {
        TrackedSent(b.log, more, n, e);
      } else {
        TrackedMore(b.log, more, m, b.open[m]);
      }
    }
    forall i: nat | i < |b'.log| && b'.log[i].Intent?
      ensures Opened(b'.open, b'.log[i].n, b'.log[i].id) || SettledAfter(b'.log, i)
    {
      assert b'.log[i] == b.log[i];
      if SettledAfter(b.log, i) {
        SettledAfterMore(b.log, more, i);
      }
    }
  }

  lemma TrackedSent(log: seq<Entry>, more: seq<Entry>, n: nat, e: Exchange)
    requires Tracked(log, n, e)
    ensures Tracked(log + more, n, e.(sent := true))
  {
    var a: nat, b: nat :| a < b < |log| && log[a] == IntentOf(n, e) && log[b] == Asked(n);
    var l := log + more;
    assert l[a] == log[a] && l[b] == log[b];
  }

  /** Every keys entry of a history that is in order answers an intent for its pane, and holds what its agent in a snapshot
      after the intent, blocked there, takes for the intent's action. */
  lemma LogPresses(log: seq<Entry>)
    requires LogOk(log)
    ensures forall i :: 0 <= i < |log| && log[i].Keys? ==>
      exists a, c, p {:trigger log[a], log[c], p in log[c].panes} :: (
        && 0 <= a < c < i && log[a].Intent? && log[a].n == log[i].n
        && log[a].session == log[i].session && log[a].pane == log[i].pane
        && log[c].Snapshot? && log[c].n == log[i].n && p in log[c].panes && p.paneId == log[i].pane && p.status == "blocked"
        && p.agent in {"codex", "cursor", "claude", "omp", "opencode"}
        && log[i].keys == (
          if p.agent == "codex" || p.agent == "cursor" then (if log[a].action == Approve then ["y"] else ["n"])
          else if log[a].action == Approve then ["enter"]
          else if p.agent == "opencode" then ["esc", "enter"] else ["esc"]))
  {
    hide Answers;
    forall i | 0 <= i < |log| && log[i].Keys?
      ensures exists a, c, p {:trigger log[a], log[c], p in log[c].panes} :: (
        && 0 <= a < c < i && log[a].Intent? && log[a].n == log[i].n
        && log[a].session == log[i].session && log[a].pane == log[i].pane
        && log[c].Snapshot? && log[c].n == log[i].n && p in log[c].panes && p.paneId == log[i].pane && p.status == "blocked"
        && p.agent in {"codex", "cursor", "claude", "omp", "opencode"}
        && log[i].keys == (
          if p.agent == "codex" || p.agent == "cursor" then (if log[a].action == Approve then ["y"] else ["n"])
          else if log[a].action == Approve then ["enter"]
          else if p.agent == "opencode" then ["esc", "enter"] else ["esc"]))
    {
      assert Justified(log, i);
      var a: nat, b: nat, c: nat :| Answers(log, i, a, b, c);
      var p := AnswerPane(log, i, a, b, c);
      assert p in log[c].panes;
    }
  }

  lemma AnswerPane(log: seq<Entry>, i: nat, a: nat, b: nat, c: nat) returns (p: Pane)
    requires Answers(log, i, a, b, c)
    ensures a < c < i < |log| && log[i].Keys? && log[c].Snapshot? && log[c].n == log[i].n && p in log[c].panes
    ensures log[a].Intent? && log[a].n == log[i].n && log[a].session == log[i].session && log[a].pane == log[i].pane
    ensures p.paneId == log[i].pane && p.status == "blocked" && p.agent in {"codex", "cursor", "claude", "omp", "opencode"}
    ensures log[i].keys == (
          if p.agent == "codex" || p.agent == "cursor" then (if log[a].action == Approve then ["y"] else ["n"])
          else if log[a].action == Approve then ["enter"]
          else if p.agent == "opencode" then ["esc", "enter"] else ["esc"])
  {
    hide FindPane, GateApproval;
    var pane := FindPane(log[c].panes, log[i].pane);
    GrantedIff(pane, log[a].action);
    p := pane.value;
  }

  // ---- the end ------------------------------------------------------------------------------------------------------------------

  /** The exchange is over, whatever came of it. */
  function Settle(b: Book, n: nat): Book
    requires n in b.open
  {
    b.(open := b.open - {n}, inFlight := b.inFlight - {b.open[n].id}, log := b.log + [Settled(n)])
  }

  lemma SettleKeeps(b: Book, n: nat)
    requires BookOk(b) && n in b.open
    ensures BookOk(Settle(b, n))
  {
    hide LogOk, Tracked, SettledAfter;
    var b' := Settle(b, n);
    LogMore(b.log, Settled(n));
    forall m | m in b'.open ensures Tracked(b'.log, m, b'.open[m]) {
      TrackedMore(b.log, [Settled(n)], m, b.open[m]);
    }
    forall i: nat | i < |b'.log| && b'.log[i].Intent?
      ensures Opened(b'.open, b'.log[i].n, b'.log[i].id) || SettledAfter(b'.log, i)
    {
      assert b'.log[i] == b.log[i];
      if SettledAfter(b.log, i) {
        SettledAfterMore(b.log, [Settled(n)], i);
      } else if b.log[i].n == n {
        JustSettled(b.log, n, i);
      }
    }
  }

  lemma JustSettled(log: seq<Entry>, n: nat, i: nat)
    requires i < |log| && log[i].n == n
    ensures SettledAfter(log + [Settled(n)], i)
  {
    assert (log + [Settled(n)])[|log|] == Settled(n);
  }

  lemma EmptyBookOk()
    ensures BookOk(Book(map[], {}, [], 0))
  {
  }
}
