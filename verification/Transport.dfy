/** The sealed stream as a protocol: two sides, implicit counters, an ideal AEAD, and a network that delivers any bytes. */
module Transport {
  import opened Framing

  const NONCE_BYTES := 24
  const MAC_BYTES := 16
  const OVERHEAD := NONCE_BYTES + MAC_BYTES
  const MAX_RECORD := 16380
  const RXBUF := 0x4000
  const U64 := 0x1_0000_0000_0000_0000

  /** "3dsendai-msg-v1", the domain tag of stream records, and "3dsendai-dsc-v1", that of discovery datagrams. */
  const MSG_CONTEXT: Bytes := [0x33, 0x64, 0x73, 0x65, 0x6e, 0x64, 0x61, 0x69, 0x2d, 0x6d, 0x73, 0x67, 0x2d, 0x76, 0x31]
  const DSC_CONTEXT: Bytes := [0x33, 0x64, 0x73, 0x65, 0x6e, 0x64, 0x61, 0x69, 0x2d, 0x64, 0x73, 0x63, 0x2d, 0x76, 0x31]

  // ---- associated data -------------------------------------------------------------------------------------------------

  function Be64(x: nat): (b: Bytes)
    ensures |b| == 8
  {
    Be32(x / 0x1_0000_0000 % 0x1_0000_0000) + Be32(x % 0x1_0000_0000)
  }

  /** context, direction, epoch, sequence number. */
  function BuildAad(context: Bytes, dir: nat, epoch: nat, seqNo: nat): (aad: Bytes)
    ensures |aad| == |context| + 17
  {
    context + [dir] + Be64(epoch) + Be64(seqNo)
  }

  lemma Be64Sum(x: nat)
    requires x < U64
    ensures var b := Be64(x);
      && IsBytes(b)
      && x == 0x1_0000_0000 * (0x100_0000 * b[0] + 0x1_0000 * b[1] + 0x100 * b[2] + b[3])
              + (0x100_0000 * b[4] + 0x1_0000 * b[5] + 0x100 * b[6] + b[7])
  {
    hide Be32;
    Be32Get(x / 0x1_0000_0000 % 0x1_0000_0000);
    Be32Get(x % 0x1_0000_0000);
  }

  /** The 32 authenticated bytes of a stream record: "3dsendai-msg-v1", 0 from the host and 1 from the device, and epoch and
      sequence number in eight bytes each, highest first. */
  lemma AadLayout(side: Side, epoch: nat, seqNo: nat)
    requires epoch < U64 && seqNo < U64
    ensures var a := BuildAad(MSG_CONTEXT, Dir(side), epoch, seqNo);
      && |a| == 32 && IsBytes(a)
      && a[..15] == [0x33, 0x64, 0x73, 0x65, 0x6e, 0x64, 0x61, 0x69, 0x2d, 0x6d, 0x73, 0x67, 0x2d, 0x76, 0x31]
      && a[15] == (if side == Host then 0 else 1)
      && epoch == 0x1_0000_0000 * (0x100_0000 * a[16] + 0x1_0000 * a[17] + 0x100 * a[18] + a[19])
                  + (0x100_0000 * a[20] + 0x1_0000 * a[21] + 0x100 * a[22] + a[23])
      && seqNo == 0x1_0000_0000 * (0x100_0000 * a[24] + 0x1_0000 * a[25] + 0x100 * a[26] + a[27])
                  + (0x100_0000 * a[28] + 0x1_0000 * a[29] + 0x100 * a[30] + a[31])
  {
    hide Be64;
    Be64Sum(epoch);
    Be64Sum(seqNo);
  }

  lemma Be64Injective(x: nat, y: nat)
    requires x < U64 && y < U64 && Be64(x) == Be64(y)
    ensures x == y
  {
    hide Be32, Get32;
    var B := 0x1_0000_0000;
    assert Be64(x)[..4] == Be32(x / B % B) && Be64(x)[4..] == Be32(x % B);
    assert Be64(y)[..4] == Be32(y / B % B) && Be64(y)[4..] == Be32(y % B);
    Be32Get(x / B % B); Be32Get(x % B);
    Be32Get(y / B % B); Be32Get(y % B);
  }

  /** The associated data tells contexts of one length, directions, epochs and sequence numbers apart. */
  lemma AadInjective(c1: Bytes, d1: nat, e1: nat, s1: nat, c2: Bytes, d2: nat, e2: nat, s2: nat)
    requires |c1| == |c2| && e1 < U64 && e2 < U64 && s1 < U64 && s2 < U64
    requires BuildAad(c1, d1, e1, s1) == BuildAad(c2, d2, e2, s2)
    ensures c1 == c2 && d1 == d2 && e1 == e2 && s1 == s2
  {
    hide Be64;
    var n := |c1|;
    var a, b := BuildAad(c1, d1, e1, s1), BuildAad(c2, d2, e2, s2);
    assert a[..n] == c1 && a[n] == d1 && a[n + 1..n + 9] == Be64(e1) && a[n + 9..] == Be64(s1);
    assert b[..n] == c2 && b[n] == d2 && b[n + 1..n + 9] == Be64(e2) && b[n + 9..] == Be64(s2);
    Be64Injective(e1, e2);
    Be64Injective(s1, s2);
  }

  /** A discovery datagram never passes for a record of a stream. */
  lemma ContextsApart(d1: nat, e1: nat, s1: nat, d2: nat, e2: nat, s2: nat)
    requires e1 < U64 && e2 < U64 && s1 < U64 && s2 < U64
    ensures BuildAad(MSG_CONTEXT, d1, e1, s1) != BuildAad(DSC_CONTEXT, d2, e2, s2)
  {
    hide BuildAad;
    assert MSG_CONTEXT[9] != DSC_CONTEXT[9];
    if BuildAad(MSG_CONTEXT, d1, e1, s1) == BuildAad(DSC_CONTEXT, d2, e2, s2) {
      AadInjective(MSG_CONTEXT, d1, e1, s1, DSC_CONTEXT, d2, e2, s2);
      assert false;
    }
  }

  // ---- ideal sealing -----------------------------------------------------------------------------------------------------

  datatype Side = Host | Device

  function Other(s: Side): Side { if s == Host then Device else Host }

  /** Direction byte of what a side sends. */
  function Dir(s: Side): nat { if s == Host then 0 else 1 }

  /** One sealing: in which connection, what under which associated data, and the record that came out. */
  datatype Sealed = Sealed(conn: nat, side: Side, epoch: nat, seqNo: nat, record: Bytes, plain: Bytes)

  function AadOf(s: Sealed): Bytes {
    BuildAad(MSG_CONTEXT, Dir(s.side), s.epoch, s.seqNo)
  }

  type Log = seq<Sealed>

  /** Opening succeeds exactly on a record sealed under the same associated data. */
  function Open(log: Log, aad: Bytes, record: Bytes): Option<Bytes> {
    if log == [] || |record| < OVERHEAD then None
    else
      var s := log[|log| - 1];
      if AadOf(s) == aad && s.record == record then Some(s.plain) else Open(log[..|log| - 1], aad, record)
  }

  /** Opening is a function of the associated data and the record: nothing else comes out of one record. */
  ghost predicate Functional(log: Log) {
    forall i, j :: 0 <= i < |log| && 0 <= j < |log| && AadOf(log[i]) == AadOf(log[j]) && log[i].record == log[j].record ==>
      log[i].plain == log[j].plain
  }

  lemma {:induction false} OpenFinds(log: Log, aad: Bytes, record: Bytes) returns (i: nat)
    requires Open(log, aad, record).Some?
    ensures i < |log| && AadOf(log[i]) == aad && log[i].record == record && Open(log, aad, record) == Some(log[i].plain)
  {
    hide AadOf;
    var n := |log| - 1;
    if AadOf(log[n]) == aad && log[n].record == record {
      i := n;
    } else {
      i := OpenFinds(log[..n], aad, record);
    }
  }

  // ---- endpoints -----------------------------------------------------------------------------------------------------------

  /** One side of one connection: its counters, its receive buffer, what it sealed and what it delivered. */
  datatype Endpoint = Endpoint(side: Side, epoch: nat, sendSeq: nat, recvSeq: nat, rx: Bytes, open: bool,
                               sealed: seq<Bytes>, delivered: seq<Bytes>)

  function Fresh(side: Side, epoch: nat): Endpoint {
    Endpoint(side, epoch, 0, 0, [], true, [], [])
  }

  /** The largest frame body a side accepts. */
  function MaxBody(s: Side): nat { if s == Host then MAX_FRAME_LEN else RXBUF - 4 }

  /** The frames of a record: the device wants it to hold whole frames, the host lets frames run on into the next one. */
  predicate WholeFrames(s: Side, plain: Bytes) {
    var c := CutAll(plain, MIN_BODY_LEN, MaxBody(s));
    c.ok && c.rest == []
  }

  predicate Accepts(s: Side, delivered: seq<Bytes>, plain: Bytes) {
    if s == Host then CutAll(Concat(delivered + [plain]), MIN_BODY_LEN, MaxBody(s)).ok else WholeFrames(s, plain)
  }

  /** A record is opened under the side's own expected counter; frames out of bounds end the connection. */
  function Receive(log: Log, e: Endpoint, record: Bytes): Endpoint {
    match Open(log, BuildAad(MSG_CONTEXT, Dir(Other(e.side)), e.epoch, e.recvSeq), record)
    case None => e.(open := false)
    case Some(plain) =>
      e.(recvSeq := e.recvSeq + 1, delivered := e.delivered + [plain], open := Accepts(e.side, e.delivered, plain))
  }

  /** Records in order, up to the first that closes the connection. */
  function ReceiveAll(log: Log, e: Endpoint, records: seq<Bytes>): Endpoint
    decreases |records|
  {
    if records == [] || !e.open then e else ReceiveAll(log, Receive(log, e, records[0]), records[1..])
  }

  /** Bytes arrive.  A bad length makes the host drop the connection before it opens anything of that chunk, the
      device after it has opened what came before; the device takes no more than its buffer holds. */
  function Arrive(log: Log, e: Endpoint, chunk: Bytes): Endpoint {
    if !e.open then e
    else if e.side == Host then
      var c := CutAll(e.rx + chunk, OVERHEAD, MAX_RECORD);
      if c.ok then ReceiveAll(log, e.(rx := c.rest), c.records) else e.(open := false, rx := c.rest)
    else
      var room := RXBUF - |e.rx|;
      var c := CutAll(e.rx + (if |chunk| <= room then chunk else if room < 0 then [] else chunk[..room]), OVERHEAD, MAX_RECORD);
      var e' := ReceiveAll(log, e.(rx := c.rest), c.records);
      if c.ok then e' else e'.(open := false)
  }

  /** The first record of a connection: a length below 40 or above 16380 ends it, a whole record is opened, and an
      incomplete one waits. */
  lemma FirstRecord(log: Log, e: Endpoint, chunk: Bytes, n: nat)
    requires e.open && e.rx == [] && 4 <= |chunk| <= 16384
    requires n == 0x100_0000 * chunk[0] + 0x1_0000 * chunk[1] + 0x100 * chunk[2] + chunk[3]
    ensures n < 40 || n > 16380 ==> !Arrive(log, e, chunk).open && Arrive(log, e, chunk).delivered == e.delivered
    ensures 40 <= n <= 16380 && |chunk| == 4 + n ==> Arrive(log, e, chunk) == Receive(log, e, chunk[4..])
    ensures 40 <= n <= 16380 && |chunk| < 4 + n ==> Arrive(log, e, chunk) == e.(rx := chunk)
  {
    hide Receive, CutAll;
    CutFirst(chunk, n);
    assert [] + chunk == chunk;
    if |chunk| == 4 + n && 40 <= n <= 16380 {
      OneRecord(log, e, chunk[4..]);
    }
  }

  lemma CutFirst(s: Bytes, n: nat)
    requires |s| >= 4 && n == 0x100_0000 * s[0] + 0x1_0000 * s[1] + 0x100 * s[2] + s[3]
    ensures n < 40 || n > 16380 ==> CutAll(s, OVERHEAD, MAX_RECORD) == Cut([], s, false)
    ensures 40 <= n <= 16380 && |s| < 4 + n ==> CutAll(s, OVERHEAD, MAX_RECORD) == Cut([], s, true)
    ensures 40 <= n <= 16380 && |s| == 4 + n ==> CutAll(s, OVERHEAD, MAX_RECORD) == Cut([s[4..]], [], true)
  {
    hide CutAll;
    CutStep(s, OVERHEAD, MAX_RECORD);
    if |s| == 4 + n {
      assert s[4 + n..] == [] && s[4..4 + n] == s[4..];
      CutStep([], OVERHEAD, MAX_RECORD);
    }
  }

  lemma OneRecord(log: Log, e: Endpoint, record: Bytes)
    requires e.open
    ensures ReceiveAll(log, e, [record]) == Receive(log, e, record)
  {
    hide Receive;
    assert [record][1..] == [];
  }

  /** A record that nobody on the other side sealed under this epoch and the expected number ends the connection; nothing of it
      is delivered, and nothing that comes later is. */
  lemma ForgedCloses(log: Log, e: Endpoint, chunk: Bytes, n: nat, later: Bytes)
    requires e.open && e.rx == [] && |chunk| == 4 + n && 40 <= n <= 16380
    requires n == 0x100_0000 * chunk[0] + 0x1_0000 * chunk[1] + 0x100 * chunk[2] + chunk[3]
    requires e.epoch < U64 && e.recvSeq < U64 && forall i :: 0 <= i < |log| ==> log[i].epoch < U64 && log[i].seqNo < U64
    requires forall i :: 0 <= i < |log| && log[i].side != e.side && log[i].epoch == e.epoch && log[i].seqNo == e.recvSeq ==>
      log[i].record != chunk[4..]
    ensures var e' := Arrive(log, e, chunk);
      !e'.open && e'.delivered == e.delivered && e'.recvSeq == e.recvSeq && Arrive(log, e', later) == e'
  {
    hide Open, BuildAad, CutAll, Accepts;
    FirstRecord(log, e, chunk, n);
    var aad := BuildAad(MSG_CONTEXT, Dir(Other(e.side)), e.epoch, e.recvSeq);
    if Open(log, aad, chunk[4..]).Some? {
      var i := OpenFinds(log, aad, chunk[4..]);
      AadInjective(MSG_CONTEXT, Dir(log[i].side), log[i].epoch, log[i].seqNo, MSG_CONTEXT, Dir(Other(e.side)), e.epoch, e.recvSeq);
      assert false;
    }
  }

  /** A record that holds one whole frame: its body has at least five bytes, and at most 16380 for the device and four
      megabytes for the host. */
  lemma FrameBounds(plain: Bytes, n: nat)
    requires |plain| >= 4 && n == 0x100_0000 * plain[0] + 0x1_0000 * plain[1] + 0x100 * plain[2] + plain[3]
    requires |plain| == 4 + n
    ensures Accepts(Device, [], plain) <==> 5 <= n <= 16380
    ensures Accepts(Host, [], plain) <==> 5 <= n <= 4194304
  {
    CutStep(plain, MIN_BODY_LEN, MaxBody(Device));
    CutStep(plain, MIN_BODY_LEN, MaxBody(Host));
    assert plain[4 + n..] == [];
    assert ([] + [plain])[..0] == [] && [] + plain == plain;
    assert Concat([] + [plain]) == plain;
  }

  // ---- runs ------------------------------------------------------------------------------------------------------------------

  /** What was sealed so far, and every connection ever made, by number: the two ends are connections of their own. */
  datatype World = World(log: Log, conns: map<nat, Endpoint>)

  /** A step: an end opens a connection, a side seals a frame into some record, bytes of any origin arrive, a connection is
      dropped. */
  datatype Action =
    | Connect(conn: nat, side: Side, epoch: nat)
    | Seal(conn: nat, plain: Bytes, record: Bytes)
    | Deliver(conn: nat, chunk: Bytes)
    | Drop(conn: nat)

  /** The host draws a new epoch for each connection, the device takes whatever the network gives it; no side seals 2^64
      records in one connection; a record sealed before under the same associated data holds the same plaintext. */
  ghost predicate Enabled(w: World, a: Action) {
    match a
    case Connect(conn, side, epoch) => conn !in w.conns && epoch < U64 && (side == Host ==> !HasHost(w.conns, epoch))
    case Seal(conn, plain, record) =>
      && conn in w.conns && w.conns[conn].open && w.conns[conn].sendSeq + 1 < U64
      && Functional(w.log + [SealedAs(conn, w.conns[conn], plain, record)])
    case Deliver(conn, chunk) => conn in w.conns
    case Drop(conn) => conn in w.conns
  }

  predicate HasHost(conns: map<nat, Endpoint>, epoch: nat) {
    exists j :: j in conns && conns[j].side == Host && conns[j].epoch == epoch
  }

  function SealedAs(conn: nat, e: Endpoint, plain: Bytes, record: Bytes): Sealed {
    Sealed(conn, e.side, e.epoch, e.sendSeq, record, plain)
  }

  function SealBy(e: Endpoint, plain: Bytes): Endpoint {
    e.(sendSeq := e.sendSeq + 1, sealed := e.sealed + [plain])
  }

  ghost function Step(w: World, a: Action): World
    requires Enabled(w, a)
  {
    match a
    case Connect(conn, side, epoch) => w.(conns := w.conns[conn := Fresh(side, epoch)])
    case Seal(conn, plain, record) =>
      World(w.log + [SealedAs(conn, w.conns[conn], plain, record)], w.conns[conn := SealBy(w.conns[conn], plain)])
    case Deliver(conn, chunk) => w.(conns := w.conns[conn := Arrive(w.log, w.conns[conn], chunk)])
    case Drop(conn) => w.(conns := w.conns[conn := w.conns[conn].(open := false)])
  }

  /** The worlds a run passes through, from nothing. */
  ghost predicate Run(worlds: seq<World>, actions: seq<Action>) {
    && |worlds| == |actions| + 1 && worlds[0] == World([], map[])
    && forall i :: 0 <= i < |actions| ==> Enabled(worlds[i], actions[i]) && worlds[i + 1] == Step(worlds[i], actions[i])
  }

  // ---- safety ---------------------------------------------------------------------------------------------------------------------

  /** Connection j is at the other side of e, under the same epoch. */
  predicate Peer(conns: map<nat, Endpoint>, e: Endpoint, j: nat) {
    j in conns && conns[j].side == Other(e.side) && conns[j].epoch == e.epoch
  }

  /** Connection j sealed, as its record k, what e delivered as its record k. */
  predicate SentBy(conns: map<nat, Endpoint>, e: Endpoint, k: nat, j: nat)
    requires k < |e.delivered|
  {
    Peer(conns, e, j) && k < |conns[j].sealed| && conns[j].sealed[k] == e.delivered[k]
  }

  ghost predicate SealedBySome(conns: map<nat, Endpoint>, e: Endpoint, k: nat)
    requires k < |e.delivered|
  {
    exists j: nat :: SentBy(conns, e, k, j)
  }

  /** Every record e delivered is one some peer sealed, under the same number. */
  ghost predicate FromPeers(conns: map<nat, Endpoint>, e: Endpoint) {
    forall k: nat :: k < |e.delivered| ==> SealedBySome(conns, e, k)
  }

  ghost predicate Counted(e: Endpoint) {
    e.epoch < U64 && e.sendSeq == |e.sealed| < U64 && e.recvSeq == |e.delivered|
  }

  ghost predicate HostsApart(conns: map<nat, Endpoint>) {
    forall i, j :: i in conns && j in conns && conns[i].side == Host && conns[j].side == Host && conns[i].epoch == conns[j].epoch ==>
      i == j
  }

  ghost predicate ConnsOk(conns: map<nat, Endpoint>) {
    HostsApart(conns) && forall j :: j in conns ==> Counted(conns[j]) && FromPeers(conns, conns[j])
  }

  /** Everything in the log was sealed by a connection, under its number. */
  ghost predicate LogOk(log: Log, conns: map<nat, Endpoint>) {
    forall i :: 0 <= i < |log| ==> SealedBy(log[i], conns)
  }

  predicate SealedBy(s: Sealed, conns: map<nat, Endpoint>) {
    && s.conn in conns && conns[s.conn].side == s.side && conns[s.conn].epoch == s.epoch
    && s.seqNo < |conns[s.conn].sealed| && conns[s.conn].sealed[s.seqNo] == s.plain
  }

  ghost predicate Safe(w: World) {
    ConnsOk(w.conns) && LogOk(w.log, w.conns) && Functional(w.log)
  }

  /** A record that opens was sealed by a peer, as the next one. */
  lemma ReceiveNext(log: Log, conns: map<nat, Endpoint>, e: Endpoint, record: Bytes)
    requires ConnsOk(conns) && LogOk(log, conns) && Counted(e) && FromPeers(conns, e)
    ensures Counted(Receive(log, e, record)) && FromPeers(conns, Receive(log, e, record))
  {
    hide BuildAad, Accepts, Open;
    var aad := BuildAad(MSG_CONTEXT, Dir(Other(e.side)), e.epoch, e.recvSeq);
    var r := Receive(log, e, record);
    if Open(log, aad, record).Some? {
      var i := OpenFinds(log, aad, record);
      var s := log[i];
      assert SealedBy(s, conns) && Counted(conns[s.conn]);
      KnownNumber(conns, e);
      AadInjective(MSG_CONTEXT, Dir(s.side), s.epoch, s.seqNo, MSG_CONTEXT, Dir(Other(e.side)), e.epoch, e.recvSeq);
      forall k: nat | k < |r.delivered| ensures SealedBySome(conns, r, k) {
        if k < |e.delivered| {
          assert SealedBySome(conns, e, k);
          var j: nat :| SentBy(conns, e, k, j);
          assert SentBy(conns, r, k, j);
        } else {
          assert SentBy(conns, r, k, s.conn);
        }
      }
    } else {
      SameDelivered(conns, e, r);
    }
  }

  /** No more was delivered than some peer sealed, so the next number is in range too. */
  lemma KnownNumber(conns: map<nat, Endpoint>, e: Endpoint)
    requires ConnsOk(conns) && Counted(e) && FromPeers(conns, e)
    ensures e.recvSeq < U64
  {
    if |e.delivered| > 0 {
      var k: nat := |e.delivered| - 1;
      assert SealedBySome(conns, e, k);
      var j: nat :| SentBy(conns, e, k, j);
      assert Counted(conns[j]);
    }
  }

  lemma SameDelivered(conns: map<nat, Endpoint>, e: Endpoint, r: Endpoint)
    requires FromPeers(conns, e) && r.delivered == e.delivered && r.side == e.side && r.epoch == e.epoch
    ensures FromPeers(conns, r)
  {
    forall k: nat | k < |r.delivered| ensures SealedBySome(conns, r, k) {
      assert SealedBySome(conns, e, k);
      var j: nat :| SentBy(conns, e, k, j);
      assert SentBy(conns, r, k, j);
    }
  }

  lemma {:induction false} ReceiveAllNext(log: Log, conns: map<nat, Endpoint>, e: Endpoint, records: seq<Bytes>)
    requires ConnsOk(conns) && LogOk(log, conns) && Counted(e) && FromPeers(conns, e)
    ensures var r := ReceiveAll(log, e, records); Counted(r) && FromPeers(conns, r) && SameIdentity(e, r)
    decreases |records|
  {
    hide Receive, ConnsOk, LogOk, Counted, FromPeers;
    if records != [] && e.open {
      ReceiveNext(log, conns, e, records[0]);
      ReceiveKeeps(log, e, records[0]);
      ReceiveAllNext(log, conns, Receive(log, e, records[0]), records[1..]);
    }
  }

  /** Receiving changes neither who one is nor what one sealed. */
  predicate SameIdentity(e: Endpoint, r: Endpoint) {
    r.side == e.side && r.epoch == e.epoch && r.sendSeq == e.sendSeq && r.sealed == e.sealed
  }

  lemma ReceiveKeeps(log: Log, e: Endpoint, record: Bytes)
    ensures SameIdentity(e, Receive(log, e, record))
  {
  }

  lemma ArriveNext(log: Log, conns: map<nat, Endpoint>, e: Endpoint, chunk: Bytes)
    requires ConnsOk(conns) && LogOk(log, conns) && Counted(e) && FromPeers(conns, e)
    ensures var r := Arrive(log, e, chunk); Counted(r) && FromPeers(conns, r) && SameIdentity(e, r)
  {
    hide ReceiveAll, CutAll, ConnsOk, LogOk, FromPeers;
    var room := RXBUF - |e.rx|;
    var taken := if e.side == Host || |chunk| <= room then chunk else if room < 0 then [] else chunk[..room];
    var c := CutAll(e.rx + taken, OVERHEAD, MAX_RECORD);
    SameDelivered(conns, e, e.(rx := c.rest));
    SameDelivered(conns, e, e.(rx := c.rest, open := false));
    ReceiveAllNext(log, conns, e.(rx := c.rest), c.records);
    var e' := ReceiveAll(log, e.(rx := c.rest), c.records);
    SameDelivered(conns, e', e'.(open := false));
  }

  /** One connection changes: it stays what it is, or is new, and keeps what it sealed. */
  predicate Continues(conns: map<nat, Endpoint>, n: nat, e: Endpoint) {
    if n in conns then conns[n].side == e.side && conns[n].epoch == e.epoch && conns[n].sealed <= e.sealed
    else e.side == Host ==> !HasHost(conns, e.epoch)
  }

  lemma StillFromPeers(conns: map<nat, Endpoint>, n: nat, e: Endpoint, f: Endpoint)
    requires Continues(conns, n, e) && FromPeers(conns, f)
    ensures FromPeers(conns[n := e], f)
  {
    var conns' := conns[n := e];
    forall k: nat | k < |f.delivered| ensures SealedBySome(conns', f, k) {
      assert SealedBySome(conns, f, k);
      var j: nat :| SentBy(conns, f, k, j);
      assert SentBy(conns', f, k, j);
    }
  }

  lemma GrowingConns(conns: map<nat, Endpoint>, n: nat, e: Endpoint)
    requires ConnsOk(conns) && Continues(conns, n, e) && Counted(e) && FromPeers(conns, e)
    ensures ConnsOk(conns[n := e])
  {
    hide FromPeers, Counted;
    StillFromPeers(conns, n, e, e);
    var conns' := conns[n := e];
    forall j | j in conns' ensures Counted(conns'[j]) && FromPeers(conns', conns'[j]) {
      if j != n {
        StillFromPeers(conns, n, e, conns[j]);
      }
    }
  }

  lemma GrowingLog(log: Log, conns: map<nat, Endpoint>, n: nat, e: Endpoint)
    requires LogOk(log, conns) && Continues(conns, n, e)
    ensures LogOk(log, conns[n := e])
  {
  }

  lemma StepSafe(w: World, a: Action)
    requires Safe(w) && Enabled(w, a)
    ensures Safe(Step(w, a))
  {
    hide Arrive, Functional, FromPeers, HostsApart;
    var n := a.conn;
    match a
    case Connect(conn, side, epoch) =>
      NothingDelivered(w.conns, Fresh(side, epoch));
      GrowingConns(w.conns, n, Fresh(side, epoch));
      GrowingLog(w.log, w.conns, n, Fresh(side, epoch));
    case Seal(conn, plain, record) =>
      var e := SealBy(w.conns[n], plain);
      SameDelivered(w.conns, w.conns[n], e);
      GrowingConns(w.conns, n, e);
      GrowingLog(w.log, w.conns, n, e);
    case Deliver(conn, chunk) =>
      var e := Arrive(w.log, w.conns[n], chunk);
      ArriveNext(w.log, w.conns, w.conns[n], chunk);
      GrowingConns(w.conns, n, e);
      GrowingLog(w.log, w.conns, n, e);
    case Drop(conn) =>
      var e := w.conns[n].(open := false);
      SameDelivered(w.conns, w.conns[n], e);
      GrowingConns(w.conns, n, e);
      GrowingLog(w.log, w.conns, n, e);
  }

  lemma NothingDelivered(conns: map<nat, Endpoint>, e: Endpoint)
    requires e.delivered == []
    ensures FromPeers(conns, e)
  {
  }

  /** In every run, whatever epochs a device is given: each record a side delivers was sealed by some connection of the other
      side under the same epoch, with the same number. */
  lemma {:induction false} RecordSafety(worlds: seq<World>, actions: seq<Action>, i: nat, n: nat)
    requires Run(worlds, actions) && i < |worlds| && n in worlds[i].conns
    ensures FromPeers(worlds[i].conns, worlds[i].conns[n])
  {
    AlwaysSafe(worlds, actions, i);
  }

  /** And so, where only one connection of the other side can be meant, a side has delivered a prefix of what that one
      sealed. */
  lemma PrefixSafety(worlds: seq<World>, actions: seq<Action>, i: nat, n: nat, j: nat)
    requires Run(worlds, actions) && i < |worlds| && n in worlds[i].conns && Peer(worlds[i].conns, worlds[i].conns[n], j)
    requires forall m: nat :: Peer(worlds[i].conns, worlds[i].conns[n], m) ==> m == j
    ensures worlds[i].conns[n].delivered <= worlds[i].conns[j].sealed
  {
    RecordSafety(worlds, actions, i, n);
    var conns := worlds[i].conns;
    var e := conns[n];
    forall k: nat | k < |e.delivered| ensures k < |conns[j].sealed| && conns[j].sealed[k] == e.delivered[k] {
      OnlyPeer(conns, e, j, k);
    }
    if |e.delivered| > 0 {
      OnlyPeer(conns, e, j, |e.delivered| - 1);
    }
    assert conns[j].sealed[..|e.delivered|] == e.delivered;
  }

  lemma OnlyPeer(conns: map<nat, Endpoint>, e: Endpoint, j: nat, k: nat)
    requires FromPeers(conns, e) && k < |e.delivered| && j in conns && forall m: nat :: Peer(conns, e, m) ==> m == j
    ensures k < |conns[j].sealed| && conns[j].sealed[k] == e.delivered[k]
  {
    assert SealedBySome(conns, e, k);
    var m: nat :| SentBy(conns, e, k, m);
  }

  /** For a device that is always so: even under a replayed epoch it delivers a prefix of what the one host connection of that
      epoch sealed. */
  lemma DevicePrefix(worlds: seq<World>, actions: seq<Action>, i: nat, n: nat) returns (j: nat)
    requires Run(worlds, actions) && i < |worlds| && n in worlds[i].conns && worlds[i].conns[n].side == Device
    ensures worlds[i].conns[n].delivered != [] ==>
      Peer(worlds[i].conns, worlds[i].conns[n], j) && worlds[i].conns[n].delivered <= worlds[i].conns[j].sealed
  {
    var conns := worlds[i].conns;
    j := 0;
    AlwaysSafe(worlds, actions, i);
    if conns[n].delivered != [] {
      var k: nat := 0;
      assert SealedBySome(conns, conns[n], k);
      j :| SentBy(conns, conns[n], k, j);
      PrefixSafety(worlds, actions, i, n, j);
    }
  }

  lemma {:induction false} AlwaysSafe(worlds: seq<World>, actions: seq<Action>, i: nat)
    requires Run(worlds, actions) && i < |worlds|
    ensures Safe(worlds[i])
  {
    hide Step, Safe, Enabled;
    if i > 0 {
      AlwaysSafe(worlds, actions, i - 1);
      StepSafe(worlds[i - 1], actions[i - 1]);
    } else {
      NothingSafe();
    }
  }

  lemma NothingSafe()
    ensures Safe(World([], map[]))
  {
  }

  // ---- delivery -------------------------------------------------------------------------------------------------------------------

  lemma {:induction false} OpenComplete(log: Log, i: nat)
    requires i < |log| && |log[i].record| >= OVERHEAD
    ensures Open(log, AadOf(log[i]), log[i].record).Some?
  {
    hide AadOf;
    if i < |log| - 1 {
      OpenComplete(log[..|log| - 1], i);
    }
  }

  /** The peer's next record, unharmed, is delivered. */
  lemma GenuineDelivered(log: Log, e: Endpoint, i: nat)
    requires Functional(log) && i < |log| && |log[i].record| >= OVERHEAD
    requires log[i].side == Other(e.side) && log[i].epoch == e.epoch && log[i].seqNo == e.recvSeq
    ensures Receive(log, e, log[i].record) ==
      e.(recvSeq := e.recvSeq + 1, delivered := e.delivered + [log[i].plain], open := Accepts(e.side, e.delivered, log[i].plain))
  {
    hide BuildAad, Accepts, Open;
    OpenComplete(log, i);
    var aad := BuildAad(MSG_CONTEXT, Dir(Other(e.side)), e.epoch, e.recvSeq);
    assert AadOf(log[i]) == aad;
    var j := OpenFinds(log, aad, log[i].record);
    assert AadOf(log[j]) == AadOf(log[i]);
  }

  /** The host's frame decoder waits for nothing. */
  ghost predicate BetweenFrames(e: Endpoint) {
    e.side == Host ==> WholeFrames(Host, Concat(e.delivered))
  }

  lemma WholeAccepted(e: Endpoint, plain: Bytes)
    requires BetweenFrames(e) && WholeFrames(e.side, plain)
    ensures Accepts(e.side, e.delivered, plain)
    ensures e.side == Host ==> WholeFrames(Host, Concat(e.delivered + [plain]))
  {
    hide CutAll;
    var d := e.delivered;
    assert (d + [plain])[..|d|] == d;
    if e.side == Host {
      CutChunks(Concat(d), plain, MIN_BODY_LEN, MAX_FRAME_LEN);
      assert [] + plain == plain;
    }
  }

  /** records[j] is what the peer sealed as its record number first + j, with the whole frames plains[j]. */
  ghost predicate Genuine(log: Log, e: Endpoint, first: nat, records: seq<Bytes>, plains: seq<Bytes>) {
    && |records| == |plains|
    && forall j: nat :: j < |records| ==> GenuineAt(log, e, first + j, records[j], plains[j])
  }

  ghost predicate GenuineAt(log: Log, e: Endpoint, seqNo: nat, record: Bytes, plain: Bytes) {
    exists i: nat :: i < |log| && IsSealed(log[i], e, seqNo, record, plain)
  }

  predicate IsSealed(s: Sealed, e: Endpoint, seqNo: nat, record: Bytes, plain: Bytes) {
    && s.side == Other(e.side) && s.epoch == e.epoch && s.seqNo == seqNo && s.record == record && s.plain == plain
    && |record| >= OVERHEAD && WholeFrames(e.side, plain)
  }

  lemma {:induction false} GenuineAllDelivered(log: Log, e: Endpoint, records: seq<Bytes>, plains: seq<Bytes>)
    requires Functional(log) && e.open && BetweenFrames(e)
    requires Genuine(log, e, e.recvSeq, records, plains)
    ensures var r := ReceiveAll(log, e, records);
      r == e.(recvSeq := e.recvSeq + |records|, delivered := e.delivered + plains) && BetweenFrames(r)
    decreases |records|
  {
    hide Receive, Functional, WholeFrames, Accepts;
    if records == [] {
      assert e.delivered + plains == e.delivered;
    } else {
      assert GenuineAt(log, e, e.recvSeq + 0, records[0], plains[0]);
      var i: nat :| i < |log| && IsSealed(log[i], e, e.recvSeq, records[0], plains[0]);
      GenuineDelivered(log, e, i);
      WholeAccepted(e, plains[0]);
      var next := Receive(log, e, records[0]);
      forall j: nat | j < |records| - 1
        ensures GenuineAt(log, next, next.recvSeq + j, records[1..][j], plains[1..][j])
      {
        assert GenuineAt(log, e, e.recvSeq + (j + 1), records[j + 1], plains[j + 1]);
        var i: nat :| i < |log| && IsSealed(log[i], e, e.recvSeq + (j + 1), records[j + 1], plains[j + 1]);
        assert IsSealed(log[i], next, next.recvSeq + j, records[1..][j], plains[1..][j]);
      }
      GenuineAllDelivered(log, next, records[1..], plains[1..]);
      assert (e.delivered + [plains[0]]) + plains[1..] == e.delivered + plains;
    }
  }

  /** A chunk that completes genuine records delivers them all and leaves the connection open. */
  lemma GenuineChunk(log: Log, e: Endpoint, chunk: Bytes, plains: seq<Bytes>)
    requires Functional(log) && e.open && BetweenFrames(e)
    requires e.side == Device ==> |e.rx| + |chunk| <= RXBUF
    requires var c := CutAll(e.rx + chunk, OVERHEAD, MAX_RECORD);
      c.ok && Genuine(log, e, e.recvSeq, c.records, plains)
    ensures var r, c := Arrive(log, e, chunk), CutAll(e.rx + chunk, OVERHEAD, MAX_RECORD);
      r == e.(recvSeq := e.recvSeq + |c.records|, delivered := e.delivered + plains, rx := c.rest) && BetweenFrames(r)
  {
    hide ReceiveAll, CutAll, Functional, IsSealed, WholeFrames;
    var c := CutAll(e.rx + chunk, OVERHEAD, MAX_RECORD);
    var e0 := e.(rx := c.rest);
    forall j: nat | j < |c.records| ensures GenuineAt(log, e0, e0.recvSeq + j, c.records[j], plains[j]) {
      assert GenuineAt(log, e, e.recvSeq + j, c.records[j], plains[j]);
      var i: nat :| i < |log| && IsSealed(log[i], e, e.recvSeq + j, c.records[j], plains[j]);
      SealedForRx(log[i], e, c.rest, e.recvSeq + j, c.records[j], plains[j]);
      assert IsSealed(log[i], e0, e0.recvSeq + j, c.records[j], plains[j]);
    }
    GenuineAllDelivered(log, e0, c.records, plains);
  }

  lemma SealedForRx(s: Sealed, e: Endpoint, rx: Bytes, seqNo: nat, record: Bytes, plain: Bytes)
    requires IsSealed(s, e, seqNo, record, plain)
    ensures IsSealed(s, e.(rx := rx), seqNo, record, plain)
  {
  }

  // ---- a replayed epoch ------------------------------------------------------------------------------------------------------------

  /** Two devices under one epoch: the first one's record 0 and the second one's record 1 make a stream no device sent. */
  function SpliceActions(a: Bytes, b: Bytes, c: Bytes, ra: Bytes, rb: Bytes, rc: Bytes): seq<Action> {
    [Connect(0, Host, 5), Connect(1, Device, 5), Connect(2, Device, 5), Seal(1, a, ra), Seal(2, b, rb), Seal(2, c, rc),
     Deliver(0, Prefixed(ra)), Deliver(0, Prefixed(rc))]
  }

  ghost predicate Goes(w: World, action: Action, w': World) {
    Enabled(w, action) && Step(w, action) == w'
  }

  lemma Opening()
    ensures Goes(World([], map[]), Connect(0, Host, 5), World([], map[0 := Fresh(Host, 5)]))
    ensures Goes(World([], map[0 := Fresh(Host, 5)]), Connect(1, Device, 5),
                 World([], map[0 := Fresh(Host, 5), 1 := Fresh(Device, 5)]))
    ensures Goes(World([], map[0 := Fresh(Host, 5), 1 := Fresh(Device, 5)]), Connect(2, Device, 5), Three([], Fresh(Host, 5), [], []))
  {
  }

  function Three(log: Log, host: Endpoint, first: seq<Bytes>, second: seq<Bytes>): World {
    World(log, map[0 := host, 1 := Sealing(first), 2 := Sealing(second)])
  }

  function Sealing(plains: seq<Bytes>): Endpoint {
    Endpoint(Device, 5, |plains|, 0, [], true, plains, [])
  }

  lemma Sealings(a: Bytes, b: Bytes, c: Bytes, ra: Bytes, rb: Bytes, rc: Bytes)
    requires ra != rb && rb != rc && ra != rc
    ensures var h, log := Fresh(Host, 5), SpliceLog(a, b, c, ra, rb, rc);
      && Goes(Three([], h, [], []), Seal(1, a, ra), Three(log[..1], h, [a], []))
      && Goes(Three(log[..1], h, [a], []), Seal(2, b, rb), Three(log[..2], h, [a], [b]))
      && Goes(Three(log[..2], h, [a], [b]), Seal(2, c, rc), Three(log, h, [a], [b, c]))
  {
    hide BuildAad;
    var log := SpliceLog(a, b, c, ra, rb, rc);
    assert log[..2] + [log[2]] == log && log[..1] + [log[1]] == log[..2] && [] + [log[0]] == log[..1];
    assert [] + [b] == [b] && [b] + [c] == [b, c] && [] + [a] == [a];
  }

  function SpliceLog(a: Bytes, b: Bytes, c: Bytes, ra: Bytes, rb: Bytes, rc: Bytes): Log {
    [Sealed(1, Device, 5, 0, ra, a), Sealed(2, Device, 5, 0, rb, b), Sealed(2, Device, 5, 1, rc, c)]
  }

  lemma Delivery(log: Log, h: Endpoint, first: seq<Bytes>, second: seq<Bytes>, chunk: Bytes)
    ensures Goes(Three(log, h, first, second), Deliver(0, chunk), Three(log, Arrive(log, h, chunk), first, second))
  {
    hide Arrive;
  }

  lemma Splice(a: Bytes, b: Bytes, c: Bytes, ra: Bytes, rb: Bytes, rc: Bytes) returns (worlds: seq<World>)
    requires WholeFrames(Host, a) && WholeFrames(Host, c) && a != b && ra != rb && rb != rc && ra != rc
    requires OVERHEAD <= |ra| <= MAX_RECORD && OVERHEAD <= |rc| <= MAX_RECORD
    ensures Run(worlds, SpliceActions(a, b, c, ra, rb, rc))
    ensures var conns := worlds[8].conns;
      && 0 in conns && 1 in conns && 2 in conns
      && conns[0].delivered == [a, c] && conns[1].sealed == [a] && conns[2].sealed == [b, c]
      && !(conns[0].delivered <= conns[1].sealed) && !(conns[0].delivered <= conns[2].sealed)
  {
    hide Arrive, CutAll, WholeFrames, Enabled, Step, BetweenFrames, Functional;
    var h0, log := Fresh(Host, 5), SpliceLog(a, b, c, ra, rb, rc);
    var h1 := Arrive(log, h0, Prefixed(ra));
    var h2 := Arrive(log, h1, Prefixed(rc));
    NoFrames(h0);
    AllDifferent(a, b, c, ra, rb, rc);
    OneGenuine(log, h0, 0);
    OneGenuine(log, h1, 2);
    assert [] + [a] == [a] && [a] + [c] == [a, c];
    Opening();
    Sealings(a, b, c, ra, rb, rc);
    Delivery(log, h0, [a], [b, c], Prefixed(ra));
    Delivery(log, h1, [a], [b, c], Prefixed(rc));
    worlds := [World([], map[]), World([], map[0 := h0]), World([], map[0 := h0, 1 := Fresh(Device, 5)]), Three([], h0, [], []),
               Three(log[..1], h0, [a], []), Three(log[..2], h0, [a], [b]), Three(log, h0, [a], [b, c]),
               Three(log, h1, [a], [b, c]), Three(log, h2, [a], [b, c])];
    assert h2.delivered == [a, c];
    assert [a, c][0] != [b, c][0];
  }

  lemma AllDifferent(a: Bytes, b: Bytes, c: Bytes, ra: Bytes, rb: Bytes, rc: Bytes)
    requires ra != rb && rb != rc && ra != rc
    ensures Functional(SpliceLog(a, b, c, ra, rb, rc))
  {
    hide BuildAad;
  }

  lemma NoFrames(e: Endpoint)
    requires e.delivered == []
    ensures BetweenFrames(e)
  {
  }

  /** A chunk that is one genuine record. */
  lemma OneGenuine(log: Log, e: Endpoint, i: nat)
    requires Functional(log) && i < |log| && e.open && e.rx == [] && e.side == Host && BetweenFrames(e)
    requires log[i].side == Device && log[i].epoch == e.epoch && log[i].seqNo == e.recvSeq
    requires OVERHEAD <= |log[i].record| <= MAX_RECORD && WholeFrames(Host, log[i].plain)
    ensures var r := Arrive(log, e, Prefixed(log[i].record));
      r == e.(recvSeq := e.recvSeq + 1, delivered := e.delivered + [log[i].plain]) && BetweenFrames(r)
  {
    hide Arrive, CutAll, WholeFrames, BetweenFrames, Functional;
    var record := log[i].record;
    assert [] + Prefixed(record) == Prefixed(record) + [] == Prefixed(record);
    CutPrefixed(record, [], OVERHEAD, MAX_RECORD);
    CutStep([], OVERHEAD, MAX_RECORD);
    assert IsSealed(log[i], e, e.recvSeq, record, log[i].plain);
    assert GenuineAt(log, e, e.recvSeq + 0, [record][0], [log[i].plain][0]);
    GenuineChunk(log, e, Prefixed(record), [log[i].plain]);
  }
}
