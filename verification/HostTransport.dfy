/** The host's end of a connection: the sealing sink and its queue, and the receive path. */
module HostTransport {
  import opened Framing
  import opened Transport

  const HIGH_WATERMARK := 8 * 1024 * 1024

  /** Turns sequence number and frame into a record; key, epoch, direction and nonces are inside. */
  type Sealer = (nat, Bytes) -> Bytes

  ghost predicate SealerOk(seal: Sealer) {
    forall n: nat, plain: Bytes :: |seal(n, plain)| == OVERHEAD + |plain|
  }

  /** Record k seals frame k under sequence number k. */
  function Records(seal: Sealer, frames: seq<Bytes>): (r: seq<Bytes>)
    ensures |r| == |frames| && forall k :: 0 <= k < |r| ==> r[k] == seal(k, frames[k])
  {
    seq(|frames|, k requires 0 <= k < |frames| => seal(k, frames[k]))
  }

  lemma {:induction false} StreamAppend(records: seq<Bytes>, record: Bytes)
    ensures Stream(records + [record]) == Stream(records) + Prefixed(record)
  {
    hide Prefixed;
    if records == [] {
      assert Stream([record]) == Prefixed(record) + Stream([]);
      assert [] + [record] == [record] && Prefixed(record) + [] == Prefixed(record) && [] + Prefixed(record) == Prefixed(record);
    } else {
      assert (records + [record])[1..] == records[1..] + [record];
      StreamAppend(records[1..], record);
      Associative(Prefixed(records[0]), Stream(records[1..]), Prefixed(record));
    }
  }

  // ---- sending ------------------------------------------------------------------------------------------------------------

  /** What the socket took, what it has not taken yet, the next sequence number, and whether the connection was given up. */
  datatype Line = Line(accepted: Bytes, pending: Bytes, count: nat, dropped: bool)

  /** The socket is offered what is pending and takes `takes` bytes of it, none if that is not positive. */
  function Offered(l: Line, takes: int): (r: Line)
    ensures r.accepted + r.pending == l.accepted + l.pending && r.count == l.count && r.dropped == l.dropped
    ensures |r.accepted| - |l.accepted| == if takes < 0 then 0 else if takes > |l.pending| then |l.pending| else takes
  {
    var n := if takes <= 0 then 0 else if takes >= |l.pending| then |l.pending| else takes;
    l.(accepted := l.accepted + l.pending[..n], pending := l.pending[n..])
  }

  /** One more frame on the line. */
  function Wrote(seal: Sealer, l: Line, frame: Bytes, takes: int): Line {
    var record := seal(l.count, frame);
    var queued := l.(pending := l.pending + Prefixed(record), count := l.count + 1);
    if |record| > MAX_RECORD then l.(dropped := true)
    else if |queued.pending| > HIGH_WATERMARK then queued.(dropped := true)
    else Offered(queued, takes)
  }

  /** Seals each flushed frame as one record and buffers sealed bytes against the socket. */
  class EncryptingSink {
    const seal: Sealer
    var pending: Bytes
    var sendSeq: nat
    /** onFatal was called: the connection is dropped. */
    var fatal: bool
    /** The frames sealed so far and the bytes the socket took. */
    ghost var frames: seq<Bytes>
    ghost var accepted: Bytes

    constructor (s: Sealer)
      ensures seal == s && Conserved() && !fatal && frames == [] && accepted == [] && pending == []
    {
      seal, pending, sendSeq, fatal, frames, accepted := s, [], 0, false, [], [];
    }

    ghost function L(): Line
      reads this
    {
      Line(accepted, pending, sendSeq, fatal)
    }

    /** Nothing is lost, duplicated or reordered between the frames and the socket. */
    ghost predicate Conserved()
      reads this
    {
      sendSeq == |frames| && accepted + pending == Stream(Records(seal, frames))
    }

    /** Offers the buffer to the socket, which takes `takes` bytes of it, or none if that is not positive. */
    method FlushPending(takes: int)
      requires Conserved()
      modifies this`pending, this`accepted
      ensures Conserved()
      ensures L() == Offered(old(L()), takes)
    {
      if |pending| == 0 {
        assert accepted + [] == accepted;
        return;
      }
      if takes <= 0 {
        assert accepted + [] == accepted;
        return;
      }
      ghost var all := accepted + pending;
      if takes >= |pending| {
        accepted := accepted + pending;
        assert pending[..|pending|] == pending;
        pending := [];
      } else {
        accepted := accepted + pending[..takes];
        pending := pending[takes..];
      }
      assert accepted + pending == all;
    }

    /** Seals one frame.  It is always taken in full; too large a record, or too much pending, drops the connection. */
    method Write(frame: Bytes, takes: int) returns (n: nat)
      requires Conserved() && SealerOk(seal)
      modifies this
      ensures Conserved() && n == |frame|
      ensures L() == Wrote(seal, old(L()), frame, takes)
      ensures if 40 + |frame| > 16380 then
                fatal && frames == old(frames) && accepted == old(accepted) && pending == old(pending)
              else frames == old(frames) + [frame] && old(accepted) <= accepted && (old(fatal) ==> fatal)
      ensures 40 + |frame| <= 16380 && !old(fatal) ==> fatal == (|old(pending)| + 44 + |frame| > 8388608)
    {
      hide Stream;
      var record := seal(sendSeq, frame);
      if |record| > MAX_RECORD {
        fatal := true;
        return |frame|;
      }
      StreamAppend(Records(seal, frames), record);
      assert Records(seal, frames + [frame]) == Records(seal, frames) + [record];
      Associative(accepted, pending, Prefixed(record));
      frames := frames + [frame];
      sendSeq := sendSeq + 1;
      pending := pending + Prefixed(record);
      if |pending| > HIGH_WATERMARK {
        fatal := true;
        return |frame|;
      }
      FlushPending(takes);
      n := |frame|;
    }
  }

  /** The write queue in front of a sealing sink, or of the socket itself on the plaintext path. */
  class Connection {
    const sink: EncryptingSink?
    var queue: Bytes
    var closed: bool
    /** Plaintext path: the frames enqueued, and the bytes the socket took. */
    ghost var enqueued: Bytes
    ghost var wire: Bytes

    constructor (s: EncryptingSink?)
      ensures sink == s && queue == [] && !closed && enqueued == [] && wire == []
    {
      sink, queue, closed, enqueued, wire := s, [], false, [], [];
    }

    ghost function Footprint(): set<object> {
      if sink == null then {this} else {this, sink}
    }

    /** A sealing sink takes everything, so the queue is empty between calls and never joins two frames; on the plaintext
        path no byte is lost or reordered. */
    ghost predicate Valid()
      reads this, sink
    {
      if sink == null then !closed ==> wire + queue == enqueued
      else queue == [] && sink.Conserved() && SealerOk(sink.seal) && (sink.fatal ==> closed)
    }

    /** Offers the queue to the sink; `takes` is what the socket takes of what it is offered. */
    method Flush(takes: int)
      requires sink == null ==> Valid()
      requires sink != null ==> sink.Conserved() && SealerOk(sink.seal) && (sink.fatal ==> closed) && (closed ==> queue == [])
      modifies Footprint()
      ensures Valid() && enqueued == old(enqueued)
      ensures sink == null ==> closed == old(closed)
      ensures sink != null ==>
        && sink.L() == (if old(closed) || old(queue) == [] then old(sink.L())
                        else Wrote(sink.seal, old(sink.L()), old(queue), takes))
        && closed == (old(closed) || (old(queue) != [] && sink.fatal))
      ensures sink != null && (old(closed) || old(queue) == []) ==> closed == old(closed) && sink.frames == old(sink.frames)
      ensures sink != null && !old(closed) && old(queue) != [] && !closed ==> sink.frames == old(sink.frames) + [old(queue)]
      ensures sink != null ==> old(sink.accepted) <= sink.accepted
      ensures sink != null ==> sink.frames == old(sink.frames) || sink.frames == old(sink.frames) + [old(queue)]
    {
      if closed || |queue| == 0 {
        return;
      }
      var accepted := takes;
      if sink != null {
        accepted := sink.Write(queue, takes);
        if sink.fatal {
          closed := true;
          queue := [];
        }
      }
      ghost var before := queue;
      if accepted >= |queue| {
        queue := [];
      } else if accepted > 0 {
        queue := queue[accepted..];
      }
      if sink == null {
        wire := wire + before[..|before| - |queue|];
        assert before[..|before| - |queue|] + queue == before;
        assert wire + queue == enqueued;
      }
    }

    /** Enqueues a frame and flushes; a frame out of range is refused before anything is queued. */
    method Send(frame: Frame, takes: int) returns (ok: bool)
      requires Valid()
      modifies Footprint()
      ensures Valid() && ok == (old(closed) || EncodeFrame(frame).Some?)
      ensures old(closed) ==> closed
      ensures sink != null ==>
        && sink.L() == (if old(closed) || EncodeFrame(frame).None? then old(sink.L())
                        else Wrote(sink.seal, old(sink.L()), EncodeFrame(frame).value, takes))
        && (closed <==> old(closed) || (sink.fatal && EncodeFrame(frame).Some?))
      ensures sink != null && (old(closed) || EncodeFrame(frame).None?) ==> closed == old(closed) && sink.frames == old(sink.frames)
      ensures sink != null && !closed && EncodeFrame(frame).Some? ==>
        sink.frames == old(sink.frames) + [EncodeFrame(frame).value]
      ensures sink != null && EncodeFrame(frame).Some? ==>
        sink.frames == old(sink.frames) || sink.frames == old(sink.frames) + [EncodeFrame(frame).value]
      ensures !old(closed) && EncodeFrame(frame).Some? ==> enqueued == old(enqueued) + EncodeFrame(frame).value
    {
      hide EncodeFrame;
      if closed {
        return true;
      }
      var encoded := EncodeFrame(frame);
      if encoded.None? {
        return false;
      }
      EncodedLong(frame);
      Associative(wire, queue, encoded.value);
      queue := queue + encoded.value;
      enqueued := enqueued + encoded.value;
      assert sink != null ==> queue == encoded.value;
      Flush(takes);
      ok := true;
    }

    /** The socket can take more. */
    method Drain(takes: int)
      requires Valid()
      modifies Footprint()
      ensures Valid() && closed == old(closed) && enqueued == old(enqueued)
      ensures sink != null ==> sink.frames == old(sink.frames) && sink.L() == Offered(old(sink.L()), takes)
    {
      if sink != null {
        sink.FlushPending(takes);
      }
      Flush(takes);
    }

    /** Dropped: what was not sent is forgotten. */
    method Close()
      requires Valid()
      modifies this`queue, this`closed
      ensures Valid() && closed && queue == []
    {
      closed := true;
      queue := [];
    }
  }

  lemma EncodedLong(frame: Frame)
    requires EncodeFrame(frame).Some?
    ensures |EncodeFrame(frame).value| >= 9
  {
  }

  // ---- a whole session of sends ---------------------------------------------------------------------------------------------

  /** A frame to send, or a drain event; `takes` is what the socket takes when it is offered bytes. */
  datatype Op = Send(frame: Frame, takes: int) | Drain(takes: int)

  /** The encodings of the frames sent, in order. */
  function Sent(ops: seq<Op>): seq<Bytes> {
    if ops == [] then []
    else
      var before, op := Sent(ops[..|ops| - 1]), ops[|ops| - 1];
      if op.Send? && EncodeFrame(op.frame).Some? then before + [EncodeFrame(op.frame).value] else before
  }

  /** The line after all sends and drains; once it is dropped nothing more is sent. */
  function After(seal: Sealer, ops: seq<Op>): Line {
    if ops == [] then Line([], [], 0, false)
    else
      var l, op := After(seal, ops[..|ops| - 1]), ops[|ops| - 1];
      match op
      case Send(frame, takes) =>
        if l.dropped || EncodeFrame(frame).None? then l else Wrote(seal, l, EncodeFrame(frame).value, takes)
      case Drain(takes) => Offered(l, takes)
  }

  lemma {:induction false} StreamPrefix(a: seq<Bytes>, b: seq<Bytes>)
    requires a <= b
    ensures Stream(a) <= Stream(b)
  {
    hide Prefixed;
    if a != [] {
      StreamPrefix(a[1..], b[1..]);
    }
  }

  lemma RecordsPrefix(seal: Sealer, a: seq<Bytes>, b: seq<Bytes>)
    requires a <= b
    ensures Stream(Records(seal, a)) <= Stream(Records(seal, b))
  {
    hide Stream;
    StreamPrefix(Records(seal, a), Records(seal, b));
  }

  /** Whatever the socket takes and whenever it drains, what it took and what is pending are together a prefix of the
      prefixed records of the frames sent, record k sealing frame k under number k; until the connection is dropped they
      are all of it. */
  method SendAll(seal: Sealer, ops: seq<Op>) returns (pending: Bytes, count: nat, dropped: bool)
    requires SealerOk(seal)
    ensures pending == After(seal, ops).pending && count == After(seal, ops).count && dropped == After(seal, ops).dropped
    ensures After(seal, ops).accepted + pending <= Stream(Records(seal, Sent(ops)))
    ensures !dropped ==> count == |Sent(ops)| && After(seal, ops).accepted + pending == Stream(Records(seal, Sent(ops)))
  {
    hide Stream, EncodeFrame, Records, Offered, Wrote;
    var sink := new EncryptingSink(seal);
    var conn := new Connection(sink);
    assert ops[..0] == [];
    for i := 0 to |ops|
      invariant fresh(conn) && fresh(sink) && conn.sink == sink && conn.Valid() && sink.seal == seal
      invariant conn.closed == sink.fatal && sink.L() == After(seal, ops[..i])
      invariant sink.frames <= Sent(ops[..i]) && (!conn.closed ==> sink.frames == Sent(ops[..i]))
    {
      assert ops[..i + 1][..i] == ops[..i];
      match ops[i] {
        case Send(frame, takes) =>
          var _ := conn.Send(frame, takes);
        case Drain(takes) =>
          conn.Drain(takes);
      }
    }
    assert ops[..|ops|] == ops;
    RecordsPrefix(seal, sink.frames, Sent(ops));
    return sink.pending, sink.sendSeq, conn.closed;
  }

  lemma ConcatMore(chunks: seq<Bytes>, chunk: Bytes)
    ensures Concat(chunks + [chunk]) == Concat(chunks) + chunk
  {
    assert (chunks + [chunk])[..|chunks|] == chunks;
  }

  /** Type, session id and payload of each body. */
  method ParseFrames(bodies: seq<Bytes>) returns (frames: seq<Frame>)
    requires Lengths(bodies, MIN_BODY_LEN, MAX_FRAME_LEN)
    ensures FramesAre(frames, bodies)
  {
    frames := [];
    for i := 0 to |bodies|
      invariant FramesAre(frames, bodies[..i])
    {
      frames := frames + [Frame(bodies[i][0], Get32(bodies[i], 1), bodies[i][5..])];
    }
  }

  // ---- receiving ------------------------------------------------------------------------------------------------------------

  /** The receive path of one encrypted connection. */
  class Receiver {
    const epoch: nat
    var recvSeq: nat
    const decoder: Decoder
    const frames: Decoder
    var open: bool
    /** The frames handed on. */
    var routed: seq<Frame>
    /** Contents of the records opened. */
    ghost var delivered: seq<Bytes>

    constructor (e: nat)
      ensures Valid() && epoch == e && delivered == [] && routed == [] && recvSeq == 0 && open && decoder.buf == []
      ensures fresh(decoder) && fresh(frames)
    {
      epoch, recvSeq, open, routed, delivered := e, 0, true, [], [];
      decoder := new Decoder(OVERHEAD, MAX_RECORD);
      frames := new Decoder(MIN_BODY_LEN, MAX_FRAME_LEN);
      new;
      NothingCut(MIN_BODY_LEN, MAX_FRAME_LEN);
      assert FramesAre([], []);
    }

    /** The frames handed on are those of the plaintext delivered so far, and the rest is pending. */
    ghost predicate Valid()
      reads this, decoder, frames
    {
      && decoder != frames && decoder.min == OVERHEAD && decoder.max == MAX_RECORD
      && frames.min == MIN_BODY_LEN && frames.max == MAX_FRAME_LEN
      && (open ==>
            var c := CutAll(Concat(delivered), MIN_BODY_LEN, MAX_FRAME_LEN);
            c.ok && c.rest == frames.buf && FramesAre(routed, c.records))
    }

    ghost function Abs(sendSeq: nat, sealed: seq<Bytes>): Endpoint
      reads this, decoder
    {
      Endpoint(Host, epoch, sendSeq, recvSeq, decoder.buf, open, sealed, delivered)
    }

    /** One record: opened under the expected counter, its plaintext fed to the frame decoder. */
    method TakeRecord(log: Log, record: Bytes, ghost sendSeq: nat, ghost sealed: seq<Bytes>)
      requires Valid() && open
      modifies this, frames
      ensures Valid() && Abs(sendSeq, sealed) == Receive(log, old(Abs(sendSeq, sealed)), record)
    {
      hide CutAll, BuildAad, Transport.Open, Concat, FramesAre;
      ghost var cut, buffered := CutAll(Concat(delivered), MIN_BODY_LEN, MAX_FRAME_LEN).records, frames.buf;
      var plain := Transport.Open(log, BuildAad(MSG_CONTEXT, 1, epoch, recvSeq), record);
      if plain.None? {
        open := false;
        return;
      }
      recvSeq := recvSeq + 1;
      ghost var before := delivered;
      delivered := delivered + [plain.value];
      ConcatMore(before, plain.value);
      CutChunks(Concat(before), plain.value, MIN_BODY_LEN, MAX_FRAME_LEN);
      var ok, got := frames.Push(plain.value);
      if !ok {
        open := false;
        return;
      }
      CutLengths(buffered + plain.value, MIN_BODY_LEN, MAX_FRAME_LEN);
      var parsed := ParseFrames(got);
      FramesJoin(routed, cut, parsed, got);
      routed := routed + parsed;
    }

    /** A chunk from the socket. */
    method Data(log: Log, chunk: Bytes, ghost sendSeq: nat, ghost sealed: seq<Bytes>)
      requires Valid()
      modifies this, decoder, frames
      ensures Valid() && Abs(sendSeq, sealed) == Arrive(log, old(Abs(sendSeq, sealed)), chunk)
    {
      hide CutAll, Receive;
      if !open {
        return;
      }
      var ok, records := decoder.Push(chunk);
      if !ok {
        open := false;
        return;
      }
      ghost var start := Abs(sendSeq, sealed);
      var i := 0;
      while i < |records| && open
        invariant Valid() && i <= |records|
        invariant ReceiveAll(log, start, records) == ReceiveAll(log, Abs(sendSeq, sealed), records[i..])
      {
        assert records[i..][1..] == records[i + 1..];
        TakeRecord(log, records[i], sendSeq, sealed);
        i := i + 1;
      }
    }
  }
}
