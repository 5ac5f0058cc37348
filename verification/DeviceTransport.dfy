/** The device's end: one fixed receive buffer, polled; sealing with the same associated data as the host. */
module DeviceTransport {
  import opened Framing
  import opened Transport
  import opened HostTransport
  import Bits

  const MAX_PLAIN_FRAME := RXBUF - OVERHEAD - 4

  // ---- associated data ------------------------------------------------------------------------------------------------

  function Pow256(n: nat): (p: nat)
    ensures p > 0
  {
    if n == 0 then 1 else 256 * Pow256(n - 1)
  }

  lemma Be64Bytes(v: nat, i: nat)
    requires v < U64 && i < 8
    ensures Be64(v)[i] == v / Pow256(7 - i) % 256
  {
    var B := 0x1_0000_0000;
    var hi, lo := v / B, v % B;
    assert Pow256(1) == 256 && Pow256(2) == 0x10000 && Pow256(3) == 0x1000000;
    assert Pow256(4) == B && Pow256(5) == 256 * B && Pow256(6) == 0x10000 * B && Pow256(7) == 0x1000000 * B;
    assert hi % B == hi;
    if i < 4 {
      assert Be64(v)[i] == Be32(hi)[i];
      HighByte(v, hi, i);
    } else {
      assert Be64(v)[i] == Be32(lo)[i - 4];
      LowByte(v, lo, i - 4);
    }
  }

  /** Byte i of a 32-bit word, the highest first. */
  lemma Be32Byte(x: nat, i: nat)
    requires i < 4
    ensures Be32(x)[i] == x / [0x100_0000, 0x1_0000, 0x100, 1][i] % 256
  {
    if i == 0 {
      assert x / 256 / 256 / 256 == x / 0x100_0000;
    } else if i == 1 {
      assert x / 256 / 256 == x / 0x1_0000;
    }
  }

  lemma HighByte(v: nat, hi: nat, i: nat)
    requires i < 4 && hi == v / 0x1_0000_0000
    ensures Be32(hi)[i] == v / [0x100_0000_0000_0000, 0x1_0000_0000_0000, 0x100_0000_0000, 0x1_0000_0000][i] % 256
  {
    hide Be32;
    Be32Byte(hi, i);
    if i == 0 {
      assert hi / 0x100_0000 == v / 0x100_0000_0000_0000;
    } else if i == 1 {
      assert hi / 0x1_0000 == v / 0x1_0000_0000_0000;
    } else if i == 2 {
      assert hi / 0x100 == v / 0x100_0000_0000;
    }
  }

  lemma LowByte(v: nat, lo: nat, i: nat)
    requires i < 4 && lo == v % 0x1_0000_0000
    ensures Be32(lo)[i] == v / [0x100_0000, 0x1_0000, 0x100, 1][i] % 256
  {
    hide Be32;
    Be32Byte(lo, i);
    var hi := v / 0x1_0000_0000;
    assert v == hi * 0x1_0000_0000 + lo;
    if i == 0 {
      Split(v, hi * 0x100, lo, 0x100_0000);
      LowMod(v / 0x100_0000, lo / 0x100_0000, hi);
    } else if i == 1 {
      Split(v, hi * 0x1_0000, lo, 0x1_0000);
      LowMod(v / 0x1_0000, lo / 0x1_0000, hi * 0x100);
    } else if i == 2 {
      Split(v, hi * 0x100_0000, lo, 0x100);
      LowMod(v / 0x100, lo / 0x100, hi * 0x1_0000);
    } else {
      LowMod(v, lo, hi * 0x100_0000);
    }
  }

  lemma Split(v: nat, q: nat, low: nat, d: nat)
    requires d > 0 && v == q * d + low
    ensures v / d == q + low / d
  {
    Bits.ModUnique(v, d, q + low / d, low % d);
  }

  lemma LowMod(x: nat, y: nat, q: nat)
    requires x == q * 256 + y
    ensures x % 256 == y % 256
  {
  }

  /** One more byte at the low end leaves the higher ones as they were. */
  lemma OneMoreByte(v: nat, b: nat, d: nat)
    requires b < 256 && d > 0
    ensures (v * 256 + b) / (256 * d) == v / d
  {
    var q, r := v / d, v % d;
    assert v == q * d + r;
    assert v * 256 + b == q * (256 * d) + (256 * r + b);
    Bits.ModUnique(v * 256 + b, 256 * d, q, 256 * r + b);
  }

  /** The bytes of v below 256^i, the highest first. */
  ghost predicate Holds(v: nat, bytes: Bytes, i: nat)
    requires i <= |bytes|
  {
    v < Pow256(i) && forall k :: 0 <= k < i ==> v / Pow256(i - 1 - k) % 256 == bytes[k]
  }

  lemma HoldsMore(v: nat, bytes: Bytes, i: nat)
    requires i < |bytes| && Holds(v, bytes, i) && bytes[i] < 256
    ensures Holds(v * 256 + bytes[i], bytes, i + 1)
  {
    hide Pow256;
    Next256(i);
    forall k | 0 <= k < i + 1 ensures (v * 256 + bytes[i]) / Pow256(i - k) % 256 == bytes[k] {
      if k < i {
        Next256(i - 1 - k);
        OneMoreByte(v, bytes[i], Pow256(i - 1 - k));
      } else {
        LastByte(v, bytes[i]);
      }
    }
  }

  lemma Next256(n: nat)
    ensures Pow256(n + 1) == 256 * Pow256(n) && Pow256(0) == 1
  {
  }

  lemma LastByte(v: nat, b: nat)
    requires b < 256
    ensures (v * 256 + b) / 1 % 256 == b
  {
  }

  lemma HoldsAll(v: nat, bytes: Bytes)
    requires |bytes| == 8 && Holds(v, bytes, 8)
    ensures v < U64 && Be64(v) == bytes
  {
    hide Be64;
    assert Pow256(4) == 0x1_0000_0000;
    assert Pow256(8) == U64;
    forall k | 0 <= k < 8 ensures Be64(v)[k] == bytes[k] {
      Be64Bytes(v, k);
      assert 7 - k == 8 - 1 - k;
    }
  }

  /** Eight bytes from `at` on, the highest first. */
  method PutU64(out: array<nat>, at: nat, v: nat)
    requires at + 8 <= out.Length && v < U64
    modifies out
    ensures out[..] == old(out[..at]) + Be64(v) + old(out[at + 8..])
  {
    ghost var before := out[..];
    for i := 0 to 8
      invariant forall k :: 0 <= k < out.Length ==> out[k] == if at <= k < at + i then Be64(v)[k - at] else before[k]
    {
      Be64Bytes(v, i);
      out[at + i] := v / Pow256(7 - i) % 256;
    }
  }

  /** The device lays the associated data out exactly as the host does. */
  method BuildAadBytes(context: Bytes, dir: nat, epoch: nat, seqNo: nat, out: array<nat>)
    requires |context| == 15 && out.Length == 32 && epoch < U64 && seqNo < U64
    modifies out
    ensures out[..] == BuildAad(context, dir, epoch, seqNo)
  {
    hide Be64;
    for i := 0 to 15
      invariant out[..i] == context[..i]
    {
      out[i] := context[i];
    }
    out[15] := dir;
    PutU64(out, 16, epoch);
    ghost var half := out[..];
    PutU64(out, 24, seqNo);
    assert out[..] == half[..24] + Be64(seqNo) + [];
  }

  // ---- plaintext frames -------------------------------------------------------------------------------------------------

  /** Whole frames at the front of a buffer. */
  method ParsePlainFrames(buf: Bytes) returns (ok: bool, consumed: nat, frames: seq<Frame>)
    ensures consumed <= |buf|
    ensures var c := CutAll(buf, MIN_BODY_LEN, RXBUF - 4);
      ok == c.ok && FramesAre(frames, c.records) && buf[consumed..] == c.rest
  {
    hide CutAll, Get32, FramesAre, ParseBody;
    ghost var all := CutAll(buf, MIN_BODY_LEN, RXBUF - 4);
    ghost var bodies := [];
    consumed, frames := 0, [];
    EmptyFrames();
    assert buf[0..] == buf && [] + all.records == all.records;
    while |buf| - consumed >= 4
      invariant consumed <= |buf| && FramesAre(frames, bodies)
      invariant var c := CutAll(buf[consumed..], MIN_BODY_LEN, RXBUF - 4); all == Cut(bodies + c.records, c.rest, c.ok)
    {
      CutStep(buf[consumed..], MIN_BODY_LEN, RXBUF - 4);
      HeaderAt(buf, consumed);
      var body := Get32(buf, consumed);
      if body < 5 || body > RXBUF - 4 {
        assert bodies + [] == bodies;
        return false, consumed, frames;
      }
      if |buf| - consumed < 4 + body {
        break;
      }
      ghost var c := CutAll(buf[consumed + 4 + body..], MIN_BODY_LEN, RXBUF - 4);
      assert buf[consumed..][4 + body..] == buf[consumed + 4 + body..];
      assert buf[consumed..][4..4 + body] == buf[consumed + 4..consumed + 4 + body];
      ghost var b := buf[consumed + 4..consumed + 4 + body];
      assert bodies + ([b] + c.records) == (bodies + [b]) + c.records;
      FrameAt(buf, consumed, body);
      OneFrame(frames, bodies, b);
      bodies := bodies + [b];
      var payload := buf[consumed + 9..consumed + 9 + (body - 5)];
      frames := frames + [Frame(buf[consumed + 4], Get32(buf, consumed + 5), payload)];
      consumed := consumed + 4 + body;
    }
    CutStep(buf[consumed..], MIN_BODY_LEN, RXBUF - 4);
    assert bodies + [] == bodies;
    ok := true;
  }

  lemma EmptyFrames()
    ensures FramesAre([], [])
  {
  }

  lemma OneFrame(frames: seq<Frame>, bodies: seq<Bytes>, body: Bytes)
    requires FramesAre(frames, bodies) && |body| >= MIN_BODY_LEN
    ensures FramesAre(frames + [ParseBody(body)], bodies + [body])
  {
    hide ParseBody;
  }

  lemma FrameAt(buf: Bytes, at: nat, n: nat)
    requires at + 4 + n <= |buf| && n >= MIN_BODY_LEN
    ensures ParseBody(buf[at + 4..at + 4 + n]) == Frame(buf[at + 4], Get32(buf, at + 5), buf[at + 9..at + 9 + (n - 5)])
  {
    var b := buf[at + 4..at + 4 + n];
    assert Get32(b, 1) == Get32(buf, at + 5);
    assert b[5..] == buf[at + 9..at + 9 + (n - 5)];
  }

  lemma HeaderAt(buf: Bytes, i: nat)
    requires i + 4 <= |buf|
    ensures Get32(buf[i..], 0) == Get32(buf, i)
  {
  }

  /** The frames of several records, each holding whole frames. */
  function FramesIn(plains: seq<Bytes>): seq<Bytes> {
    if plains == [] then []
    else FramesIn(plains[..|plains| - 1]) + CutAll(plains[|plains| - 1], MIN_BODY_LEN, RXBUF - 4).records
  }

  lemma FramesInAppend(plains: seq<Bytes>, plain: Bytes)
    ensures FramesIn(plains + [plain]) == FramesIn(plains) + CutAll(plain, MIN_BODY_LEN, RXBUF - 4).records
  {
    assert (plains + [plain])[..|plains|] == plains;
  }

  // ---- the connection -----------------------------------------------------------------------------------------------------

  /** What recv returned: bytes (none of them means the peer closed), nothing yet, or an error. */
  datatype Received = Bytes(data: Bytes) | WouldBlock | Failed

  /** The bytes of a read that leaves the connection open: no bytes or an error end it. */
  function Taken(got: Received): Option<Bytes> {
    match got
    case Bytes(data) => if data == [] then None else Some(data)
    case WouldBlock => Some([])
    case Failed => None
  }

  /** How far connecting to the host got. */
  datatype Dial = NotReady | NoSocket | Refused | Dialed

  class Net {
    const rx: array<nat>
    var rxLen: nat
    var connected: bool
    var epoch: nat
    var sendSeq: nat
    var recvSeq: nat
    const seal: Sealer
    /** Since the last connect: frames sealed, bytes sent, contents of the records opened. */
    ghost var sealed: seq<Bytes>
    ghost var wire: Bytes
    ghost var delivered: seq<Bytes>

    constructor (s: Sealer)
      requires SealerOk(s)
      ensures Valid() && !connected && seal == s && fresh(rx)
    {
      seal, rxLen, connected, epoch, sendSeq, recvSeq := s, 0, false, 0, 0, 0;
      rx := new nat[RXBUF](_ => 0);
      sealed, wire, delivered := [], [], [];
    }

    /** The buffer always has room for the next read; what was sent are the sealed frames in order. */
    ghost predicate Valid()
      reads this, rx
    {
      && rx.Length == RXBUF && rxLen < RXBUF && SealerOk(seal)
      && (connected ==> sendSeq == |sealed| && recvSeq == |delivered| && wire == Stream(Records(seal, sealed)))
    }

    ghost function Abs(): Endpoint
      requires rxLen <= rx.Length
      reads this, rx
    {
      Endpoint(Device, epoch, sendSeq, recvSeq, rx[..rxLen], connected, sealed, delivered)
    }

    method Disconnect()
      requires rx.Length == RXBUF && SealerOk(seal)
      modifies this
      ensures Valid() && !connected && delivered == old(delivered) && sealed == old(sealed)
      ensures rxLen == epoch == sendSeq == recvSeq == 0
    {
      connected := false;
      rxLen := 0;
      epoch := 0;
      sendSeq := 0;
      recvSeq := 0;
    }

    /** A new connection.  With a key, the host's eight cleartext bytes are its epoch, and with fewer of them in time there
        is none; without a key nothing is read. */
    method Connect(dial: Dial, key: bool, epochBytes: Bytes) returns (rc: int)
      requires Valid() && |epochBytes| <= 8 && IsBytes(epochBytes)
      modifies this
      ensures Valid()
      ensures rc == match dial { case NotReady => -1 case NoSocket => -3 case Refused => -4
                                 case Dialed => if key && |epochBytes| < 8 then -5 else 0 }
      ensures rc == 0 ==> connected && Abs() == Fresh(Device, epoch)
      ensures rc == 0 ==> if key then epoch < U64 && Be64(epoch) == epochBytes else epoch == 0
      ensures rc == -1 ==> Abs() == old(Abs())
      ensures rc < -1 ==> !connected && rxLen == 0
    {
      hide Be64, Holds, Pow256;
      if dial.NotReady? {
        return -1;
      }
      Disconnect();
      if dial.NoSocket? {
        return -3;
      }
      if dial.Refused? {
        return -4;
      }
      sealed, wire, delivered := [], [], [];
      if key {
        if |epochBytes| < 8 {
          return -5;
        }
        NoBytes(epochBytes);
        for i := 0 to 8
          invariant Holds(epoch, epochBytes, i) && rxLen == 0 && sendSeq == 0 && recvSeq == 0
          invariant sealed == [] && wire == [] && delivered == []
        {
          HoldsMore(epoch, epochBytes, i);
          epoch := epoch * 256 + epochBytes[i];
        }
        HoldsAll(epoch, epochBytes);
      }
      connected := true;
      assert rx[..0] == [];
      rc := 0;
    }

    /** Seals and sends one frame whole, or drops the connection; a frame too large for the peer's buffer is refused. */
    method Send(frame: Frame, sent: bool) returns (rc: int)
      requires Valid()
      modifies this
      ensures Valid()
      ensures var plain := Prefixed(Body(frame));
        if !old(connected) || 9 + |frame.payload| > 16340 then rc == -1 && Abs() == old(Abs()) && wire == old(wire)
        else if !sent then rc == -1 && !connected && sealed == old(sealed) && delivered == old(delivered)
        else && rc == 0 && |seal(old(sendSeq), plain)| <= 16380
             && Abs() == old(Abs()).(sendSeq := old(sendSeq) + 1, sealed := old(sealed) + [plain])
             && wire == old(wire) + Prefixed(seal(old(sendSeq), plain))
    {
      hide Stream, Records, Body;
      if !connected {
        return -1;
      }
      var body := 5 + |frame.payload|;
      var plain := Be32(body) + [frame.kind] + Be32(frame.sessionId) + frame.payload;
      FrameBytes(frame);
      if |plain| > MAX_PLAIN_FRAME {
        return -1;
      }
      var record := seal(sendSeq, plain);
      if !sent {
        Disconnect();
        return -1;
      }
      NextRecord(seal, sealed, plain);
      wire := wire + Prefixed(record);
      sealed := sealed + [plain];
      sendSeq := sendSeq + 1;
      rc := 0;
    }

    /** Without a key the frame itself goes out, of any length. */
    method SendPlain(frame: Frame, sent: bool) returns (rc: int, bytes: Bytes)
      requires Valid()
      modifies this
      ensures Valid() && bytes == if rc == 0 then Prefixed(Body(frame)) else []
      ensures rc == if old(connected) && sent then 0 else -1
      ensures rc == 0 || !old(connected) ==> Abs() == old(Abs())
      ensures rc != 0 ==> !connected
    {
      if !connected {
        return -1, [];
      }
      if !sent {
        Disconnect();
        return -1, [];
      }
      var body := 5 + |frame.payload|;
      FrameBytes(frame);
      return 0, Be32(body) + [frame.kind] + Be32(frame.sessionId) + frame.payload;
    }

    /** Opens every whole record in the buffer, hands on its frames, and moves the rest to the front. */
    method PollSealed(log: Log) returns (ok: bool, frames: seq<Frame>)
      requires rx.Length == RXBUF && rxLen <= RXBUF && SealerOk(seal) && connected
      requires sendSeq == |sealed| && recvSeq == |delivered| && wire == Stream(Records(seal, sealed))
      modifies this, rx
      ensures Valid() && ok == connected
      ensures var e := old(Abs()); var c := CutAll(e.rx, OVERHEAD, MAX_RECORD);
        var r := ReceiveAll(log, e.(rx := c.rest), c.records);
        && delivered == r.delivered && connected == (r.open && c.ok) && (connected ==> Abs() == r && rx[..rxLen] == c.rest)
      ensures connected ==> old(delivered) <= delivered && FramesAre(frames, FramesIn(delivered[|old(delivered)|..]))
    {
      hide CutAll, Get32, Receive, ReceiveAll, Stream, Records, FramesIn, ToDo, FramesAre;
      ghost var e, s := Abs(), rx[..rxLen];
      ghost var rest := CutAll(s, OVERHEAD, MAX_RECORD).rest;
      ghost var start := e.(rx := rest);
      var off: nat := 0;
      frames := [];
      assert delivered[|delivered|..] == [];
      NoFramesIn();
      EmptyFrames();
      AllToDo(log, s, start);
      while rxLen - off >= 4
        invariant off <= rxLen == |s| <= RXBUF && rx[..rxLen] == s && connected && wire == Stream(Records(seal, sealed))
        invariant sealed == e.sealed && sendSeq == e.sendSeq && epoch == e.epoch && recvSeq == |delivered|
        invariant ToDo(log, s, start, off, Abs().(rx := rest))
        invariant e.delivered <= delivered && FramesAre(frames, FramesIn(delivered[|e.delivered|..]))
      {
        ghost var here := Abs().(rx := rest);
        var record := Get32(rx[..rxLen], off);
        if record < OVERHEAD || record > RXBUF - 4 {
          BadToDo(log, s, start, off, here);
          Disconnect();
          return false, frames;
        }
        if rxLen - off < 4 + record {
          break;
        }
        NextToDo(log, s, start, off, here);
        Window(rx, rxLen, off + 4, off + 4 + record);
        var good;
        good, frames := OpenNext(log, rx[off + 4..off + 4 + record], frames, e.delivered, rest);
        if !good {
          return false, frames;
        }
        off := off + 4 + record;
      }
      NoneToDo(log, s, start, off, Abs().(rx := rest));
      RestIncomplete(s, OVERHEAD, MAX_RECORD);
      if off > 0 {
        MoveDown(off);
      }
      assert rx[..rxLen] == s[off..];
      ok := true;
    }

    /** memmove of the unread bytes to the front. */
    method MoveDown(off: nat)
      requires off <= rxLen <= rx.Length
      modifies this`rxLen, rx
      ensures rxLen == old(rxLen) - off && rx[..rxLen] == old(rx[..rxLen][off..])
    {
      ghost var s := rx[..rxLen];
      for i := 0 to rxLen - off
        invariant forall k :: 0 <= k < i ==> rx[k] == s[off + k]
        invariant forall k :: i <= k < rxLen ==> rx[k] == s[k]
        modifies rx
      {
        rx[i] := rx[i + off];
      }
      rxLen := rxLen - off;
      assert rx[..rxLen] == s[off..];
    }

    /** One record of the buffer. */
    method OpenNext(log: Log, record: Bytes, frames: seq<Frame>, ghost before: seq<Bytes>, ghost rest: Bytes)
      returns (good: bool, frames': seq<Frame>)
      requires rx.Length == RXBUF && rxLen <= RXBUF && SealerOk(seal) && connected && recvSeq == |delivered|
      requires before <= delivered && FramesAre(frames, FramesIn(delivered[|before|..]))
      modifies this
      ensures var r := Receive(log, old(Abs()).(rx := rest), record);
        && delivered == r.delivered && good == r.open == connected && sealed == old(sealed)
        && (good ==>
              && rxLen == old(rxLen) && sendSeq == old(sendSeq) && epoch == old(epoch)
              && Abs().(rx := rest) == r && wire == old(wire) && recvSeq == |delivered|
              && before <= delivered && FramesAre(frames', FramesIn(delivered[|before|..])))
        && (!good ==> Valid())
    {
      hide CutAll, BuildAad, Transport.Open, FramesIn, FramesAre;
      ghost var bodies := FramesIn(delivered[|before|..]);
      var plain := Transport.Open(log, BuildAad(MSG_CONTEXT, 0, epoch, recvSeq), record);
      if plain.None? {
        Disconnect();
        return false, frames;
      }
      recvSeq := recvSeq + 1;
      assert (delivered + [plain.value])[|before|..] == delivered[|before|..] + [plain.value];
      FramesInAppend(delivered[|before|..], plain.value);
      delivered := delivered + [plain.value];
      var ok, consumed, got := ParsePlainFrames(plain.value);
      if !ok || consumed != |plain.value| {
        Disconnect();
        return false, frames;
      }
      FramesJoin(frames, bodies, got, CutAll(plain.value, MIN_BODY_LEN, RXBUF - 4).records);
      return true, frames + got;
    }

    /** What recv put behind the bytes already there. */
    method Fill(data: Bytes)
      requires rx.Length == RXBUF && rxLen + |data| <= RXBUF
      modifies this`rxLen, rx
      ensures rxLen == old(rxLen) + |data| && rx[..rxLen] == old(rx[..rxLen]) + data
    {
      ghost var s := rx[..rxLen];
      for i := 0 to |data|
        modifies rx
        invariant rx[..rxLen] == s && rx[rxLen..rxLen + i] == data[..i]
      {
        rx[rxLen + i] := data[i];
      }
      rxLen := rxLen + |data|;
    }

    /** One poll of the sealed stream: the endpoint takes a step of the protocol, and what stays in the buffer is an
        incomplete record, strictly shorter than the buffer. */
    method Poll(log: Log, got: Received) returns (ok: bool, frames: seq<Frame>)
      requires Valid()
      requires got.Bytes? ==> |got.data| <= RXBUF - rxLen
      modifies this, rx
      ensures Valid() && ok == connected
      ensures old(connected) && Taken(got).Some? ==>
        var r := Arrive(log, old(Abs()), Taken(got).value);
        && delivered == r.delivered && connected == r.open && (connected ==> Abs() == r)
      ensures old(connected) && Taken(got).None? ==> !connected && delivered == old(delivered)
      ensures connected ==> Incomplete(rx[..rxLen], OVERHEAD, MAX_RECORD)
      ensures connected ==> old(delivered) <= delivered && FramesAre(frames, FramesIn(delivered[|old(delivered)|..]))
    {
      hide CutAll, ReceiveAll, Stream, Records, FramesIn, FramesAre;
      if !connected {
        return false, [];
      }
      match got {
        case Bytes(data) =>
          if data == [] {
            Disconnect();
            return false, [];
          }
          Fill(data);
        case WouldBlock =>
          assert rx[..rxLen] + [] == rx[..rxLen];
        case Failed =>
          Disconnect();
          return false, [];
      }
      RestIncomplete(rx[..rxLen], OVERHEAD, MAX_RECORD);
      ok, frames := PollSealed(log);
    }

    /** One poll of a plaintext stream. */
    method PollPlain(got: Received) returns (ok: bool, frames: seq<Frame>)
      requires Valid()
      requires got.Bytes? ==> |got.data| <= RXBUF - rxLen
      modifies this, rx
      ensures Valid() && ok == connected
      ensures old(connected) && Taken(got).Some? ==>
        var c := CutAll(old(rx[..rxLen]) + Taken(got).value, MIN_BODY_LEN, RXBUF - 4);
        connected == c.ok && (connected ==> rx[..rxLen] == c.rest && FramesAre(frames, c.records))
      ensures old(connected) && Taken(got).None? ==> !connected
      ensures connected ==> Incomplete(rx[..rxLen], MIN_BODY_LEN, RXBUF - 4)
    {
      hide CutAll, Stream, Records;
      if !connected {
        return false, [];
      }
      match got {
        case Bytes(data) =>
          if data == [] {
            Disconnect();
            return false, [];
          }
          Fill(data);
        case WouldBlock =>
          assert rx[..rxLen] + [] == rx[..rxLen];
        case Failed =>
          Disconnect();
          return false, [];
      }
      ghost var s := rx[..rxLen];
      RestIncomplete(s, MIN_BODY_LEN, RXBUF - 4);
      var consumed;
      ok, consumed, frames := ParsePlainFrames(rx[..rxLen]);
      if !ok {
        Disconnect();
        return false, frames;
      }
      if consumed > 0 {
        MoveDown(consumed);
      }
      assert rx[..rxLen] == s[consumed..];
    }
  }

  /** The records of the buffer behind `off` lead from `here` to where all of them lead from `start`. */
  predicate ToDo(log: Log, s: Bytes, start: Endpoint, off: nat, here: Endpoint) {
    && off <= |s|
    && var c, d := CutAll(s, OVERHEAD, MAX_RECORD), CutAll(s[off..], OVERHEAD, MAX_RECORD);
       d.ok == c.ok && d.rest == c.rest && ReceiveAll(log, start, c.records) == ReceiveAll(log, here, d.records)
  }

  lemma AllToDo(log: Log, s: Bytes, start: Endpoint)
    ensures ToDo(log, s, start, 0, start)
  {
    hide CutAll, ReceiveAll;
    assert s[0..] == s;
  }

  lemma BadToDo(log: Log, s: Bytes, start: Endpoint, off: nat, here: Endpoint)
    requires ToDo(log, s, start, off, here) && off + 4 <= |s|
    requires Get32(s, off) < OVERHEAD || Get32(s, off) > MAX_RECORD
    ensures var c := CutAll(s, OVERHEAD, MAX_RECORD); !c.ok && ReceiveAll(log, start, c.records) == here
  {
    hide CutAll, Get32, ReceiveAll;
    CutStep(s[off..], OVERHEAD, MAX_RECORD);
    HeaderAt(s, off);
    ReceiveNone(log, here);
  }

  lemma NoneToDo(log: Log, s: Bytes, start: Endpoint, off: nat, here: Endpoint)
    requires ToDo(log, s, start, off, here)
    requires |s| < off + 4 || (OVERHEAD <= Get32(s, off) <= MAX_RECORD && |s| < off + 4 + Get32(s, off))
    ensures var c := CutAll(s, OVERHEAD, MAX_RECORD);
      c.ok && c.rest == s[off..] && ReceiveAll(log, start, c.records) == here
  {
    hide CutAll, Get32, ReceiveAll;
    CutStep(s[off..], OVERHEAD, MAX_RECORD);
    if off + 4 <= |s| {
      HeaderAt(s, off);
    }
    ReceiveNone(log, here);
  }

  lemma NextToDo(log: Log, s: Bytes, start: Endpoint, off: nat, here: Endpoint)
    requires here.open && ToDo(log, s, start, off, here)
    requires off + 4 <= |s| && OVERHEAD <= Get32(s, off) <= MAX_RECORD && off + 4 + Get32(s, off) <= |s|
    ensures var n := off + 4 + Get32(s, off); var r := Receive(log, here, s[off + 4..n]);
      if r.open then ToDo(log, s, start, n, r)
      else ReceiveAll(log, start, CutAll(s, OVERHEAD, MAX_RECORD).records) == r
  {
    hide CutAll, Get32, Receive, ReceiveAll;
    var n := off + 4 + Get32(s, off);
    var d := CutAll(s[off..], OVERHEAD, MAX_RECORD);
    CutStep(s[off..], OVERHEAD, MAX_RECORD);
    HeaderAt(s, off);
    assert s[off..][4 + Get32(s, off)..] == s[n..] && s[off..][4..4 + Get32(s, off)] == s[off + 4..n];
    ReceiveOne(log, here, d.records);
    var r := Receive(log, here, s[off + 4..n]);
    if !r.open {
      ReceiveStops(log, r, d.records[1..]);
    }
  }

  lemma Window(a: array<nat>, n: nat, i: nat, j: nat)
    requires i <= j <= n <= a.Length
    ensures a[i..j] == a[..n][i..j]
  {
  }

  lemma NoBytes(bytes: Bytes)
    ensures Holds(0, bytes, 0)
  {
  }

  lemma FrameBytes(f: Frame)
    ensures Be32(5 + |f.payload|) + [f.kind] + Be32(f.sessionId) + f.payload == Prefixed(Body(f))
  {
    hide Be32;
  }

  lemma NoFramesIn()
    ensures FramesIn([]) == []
  {
  }

  lemma NextRecord(seal: Sealer, frames: seq<Bytes>, frame: Bytes)
    ensures Stream(Records(seal, frames + [frame])) == Stream(Records(seal, frames)) + Prefixed(seal(|frames|, frame))
  {
    hide Stream, Prefixed;
    StreamAppend(Records(seal, frames), seal(|frames|, frame));
    assert Records(seal, frames + [frame]) == Records(seal, frames) + [seal(|frames|, frame)];
  }

  lemma ReceiveNone(log: Log, e: Endpoint)
    ensures ReceiveAll(log, e, []) == e
  {
  }

  lemma ReceiveOne(log: Log, e: Endpoint, records: seq<Bytes>)
    requires e.open && records != []
    ensures ReceiveAll(log, e, records) == ReceiveAll(log, Receive(log, e, records[0]), records[1..])
  {
  }

  lemma ReceiveStops(log: Log, e: Endpoint, records: seq<Bytes>)
    requires !e.open
    ensures ReceiveAll(log, e, records) == e
  {
  }

  // ---- what the other side was given ----------------------------------------------------------------------------------------

  /** The encodings of frames, one plaintext each. */
  function Encodings(frames: seq<Frame>): (p: seq<Bytes>)
    ensures |p| == |frames| && forall i :: 0 <= i < |p| ==> p[i] == Prefixed(Body(frames[i]))
  {
    seq(|frames|, i requires 0 <= i < |frames| => Prefixed(Body(frames[i])))
  }

  lemma {:induction false} DeviceBodies(frames: seq<Frame>)
    requires Sendable(frames, RXBUF - 4)
    ensures FramesIn(Encodings(frames)) == Bodies(frames)
  {
    hide CutAll, Body, Prefixed, FramesIn;
    if frames == [] {
      NoFramesIn();
    } else {
      var init, last := frames[..|frames| - 1], frames[|frames| - 1];
      DeviceBodies(init);
      assert Encodings(frames) == Encodings(init) + [Prefixed(Body(last))];
      FramesInAppend(Encodings(init), Prefixed(Body(last)));
      CutOne(last);
      assert Bodies(frames) == Bodies(init) + [Body(last)];
    }
  }

  lemma CutOne(f: Frame)
    requires f.sessionId < 0x1_0000_0000 && MIN_BODY_LEN + |f.payload| <= RXBUF - 4
    ensures CutAll(Prefixed(Body(f)), MIN_BODY_LEN, RXBUF - 4).records == [Body(f)]
  {
    hide CutAll, Body, Prefixed;
    BodyParses(f);
    NothingCut(MIN_BODY_LEN, RXBUF - 4);
    CutPrefixed(Body(f), [], MIN_BODY_LEN, RXBUF - 4);
    assert Prefixed(Body(f)) + [] == Prefixed(Body(f)) && [Body(f)] + [] == [Body(f)];
  }

  lemma BodiesAre(frames: seq<Frame>, max: nat)
    requires Sendable(frames, max)
    ensures FramesAre(frames, Bodies(frames))
  {
    hide Body, ParseBody;
    forall i | 0 <= i < |frames| ensures |Body(frames[i])| >= MIN_BODY_LEN && ParseBody(Body(frames[i])) == frames[i] {
      BodyParses(frames[i]);
    }
  }

  /** Where the records delivered to the device are the encodings that the host's Send sealed, what the device hands on are
      exactly the frames Send was given: type, session id and payload. */
  lemma DeviceReads(sent: seq<Frame>, got: seq<Frame>)
    requires Sendable(sent, RXBUF - 4) && FramesAre(got, FramesIn(Encodings(sent)))
    ensures got == sent
  {
    hide FramesAre, Bodies;
    DeviceBodies(sent);
    BodiesAre(sent, RXBUF - 4);
    SameFrames(got, sent, Bodies(sent));
  }

  lemma {:induction false} EncodingsConcat(frames: seq<Frame>)
    ensures Concat(Encodings(frames)) == Encoded(frames)
  {
    hide Prefixed, Body;
    if frames != [] {
      var init, last := frames[..|frames| - 1], frames[|frames| - 1];
      EncodingsConcat(init);
      assert Encodings(frames)[..|frames| - 1] == Encodings(init);
      EncodedAppend(init, last);
      assert init + [last] == frames;
    }
  }

  lemma {:induction false} EncodedAppend(frames: seq<Frame>, f: Frame)
    ensures Encoded(frames + [f]) == Encoded(frames) + Prefixed(Body(f))
  {
    hide Prefixed, Body;
    if frames == [] {
      assert Encoded([f]) == Prefixed(Body(f)) + Encoded([]);
      assert [] + [f] == [f] && Prefixed(Body(f)) + [] == Prefixed(Body(f)) && [] + Prefixed(Body(f)) == Prefixed(Body(f));
    } else {
      assert (frames + [f])[1..] == frames[1..] + [f];
      EncodedAppend(frames[1..], f);
      Associative(Prefixed(Body(frames[0])), Encoded(frames[1..]), Prefixed(Body(f)));
    }
  }

  /** The reverse: from the encodings that the device's Send sealed, the host routes exactly the frames Send was given. */
  lemma HostReads(sent: seq<Frame>, routed: seq<Frame>)
    requires Sendable(sent, MAX_FRAME_LEN)
    requires FramesAre(routed, CutAll(Concat(Encodings(sent)), MIN_BODY_LEN, MAX_FRAME_LEN).records)
    ensures routed == sent
  {
    hide FramesAre, CutAll, Encoded;
    EncodingsConcat(sent);
    NothingCut(MIN_BODY_LEN, MAX_FRAME_LEN);
    FramesRoundTrip(sent, [], MAX_FRAME_LEN);
    assert Encoded(sent) + [] == Encoded(sent);
    SameFrames(routed, sent, CutAll(Encoded(sent), MIN_BODY_LEN, MAX_FRAME_LEN).records);
  }

  /** Over whole runs: if the host seals what Send is given, a device hands on the first frames of those given to the host
      connection of its epoch, in order and unchanged. */
  lemma DeviceFramesPrefix(worlds: seq<World>, actions: seq<Action>, i: nat, n: nat, j: nat, sent: seq<Frame>, got: seq<Frame>)
    requires Run(worlds, actions) && i < |worlds| && n in worlds[i].conns && worlds[i].conns[n].side == Device
    requires Peer(worlds[i].conns, worlds[i].conns[n], j) && worlds[i].conns[j].sealed == Encodings(sent)
    requires forall m: nat :: Peer(worlds[i].conns, worlds[i].conns[n], m) ==> m == j
    requires Sendable(sent, RXBUF - 4) && FramesAre(got, FramesIn(worlds[i].conns[n].delivered))
    ensures got <= sent
  {
    hide Run, Peer, FramesAre, FramesIn;
    PrefixSafety(worlds, actions, i, n, j);
    var k := |worlds[i].conns[n].delivered|;
    assert worlds[i].conns[n].delivered == Encodings(sent[..k]);
    DeviceReads(sent[..k], got);
  }

  /** And the host routes the first frames of those given to the one device connection under its epoch. */
  lemma HostFramesPrefix(worlds: seq<World>, actions: seq<Action>, i: nat, n: nat, j: nat, sent: seq<Frame>, routed: seq<Frame>)
    requires Run(worlds, actions) && i < |worlds| && n in worlds[i].conns && worlds[i].conns[n].side == Host
    requires Peer(worlds[i].conns, worlds[i].conns[n], j) && worlds[i].conns[j].sealed == Encodings(sent)
    requires forall m: nat :: Peer(worlds[i].conns, worlds[i].conns[n], m) ==> m == j
    requires Sendable(sent, MAX_FRAME_LEN)
    requires FramesAre(routed, CutAll(Concat(worlds[i].conns[n].delivered), MIN_BODY_LEN, MAX_FRAME_LEN).records)
    ensures routed <= sent
  {
    hide Run, Peer, FramesAre, CutAll, Concat;
    PrefixSafety(worlds, actions, i, n, j);
    var k := |worlds[i].conns[n].delivered|;
    assert worlds[i].conns[n].delivered == Encodings(sent[..k]);
    HostReads(sent[..k], routed);
  }
}
