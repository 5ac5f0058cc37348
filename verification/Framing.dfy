/** Length-prefixed framing: cutting a byte stream into records does not depend on how it arrives. */
module Framing {

  type Bytes = seq<nat>

  ghost predicate IsBytes(b: Bytes) {
    forall i :: 0 <= i < |b| ==> b[i] < 256
  }

  // ---- big-endian numbers ---------------------------------------------------------------------------------------------

  function Be32(x: nat): (b: Bytes)
    ensures |b| == 4
  {
    [x / 256 / 256 / 256 % 256, x / 256 / 256 % 256, x / 256 % 256, x % 256]
  }

  function Get32(b: Bytes, i: nat): nat
    requires i + 4 <= |b|
  {
    b[i] * 0x1000000 + b[i + 1] * 0x10000 + b[i + 2] * 256 + b[i + 3]
  }

  /** The highest byte first. */
  lemma Be32Get(x: nat)
    requires x < 0x1_0000_0000
    ensures IsBytes(Be32(x)) && Get32(Be32(x), 0) == x
    ensures var b := Be32(x); 0x100_0000 * b[0] + 0x1_0000 * b[1] + 0x100 * b[2] + b[3] == x
  {
  }

  // ---- records --------------------------------------------------------------------------------------------------------

  function Prefixed(record: Bytes): Bytes {
    Be32(|record|) + record
  }

  function Stream(records: seq<Bytes>): Bytes {
    if records == [] then [] else Prefixed(records[0]) + Stream(records[1..])
  }

  /** A record on the wire: its length in four bytes, highest first, and the record. */
  lemma PrefixLayout(record: Bytes)
    requires |record| < 0x1_0000_0000
    ensures var b := Prefixed(record);
      && |b| == 4 + |record| && IsBytes(b[..4]) && 0x100_0000 * b[0] + 0x1_0000 * b[1] + 0x100 * b[2] + b[3] == |record|
      && b[4..] == record
  {
    hide Be32;
    Be32Get(|record|);
    assert Prefixed(record)[..4] == Be32(|record|);
  }

  /** Whole records, what is left over, and whether every declared length was acceptable. */
  datatype Cut = Cut(records: seq<Bytes>, rest: Bytes, ok: bool)

  function CutAll(s: Bytes, min: nat, max: nat): (c: Cut)
    ensures |c.rest| <= |s|
    decreases |s|
  {
    if |s| < 4 then Cut([], s, true)
    else
      var len := Get32(s, 0);
      if len < min || len > max then Cut([], s, false)
      else if |s| < 4 + len then Cut([], s, true)
      else
        var c := CutAll(s[4 + len..], min, max);
        Cut([s[4..4 + len]] + c.records, c.rest, c.ok)
  }

  /** A piece of a stream that is not a whole record yet, and whose length, if it is there, is acceptable. */
  predicate Incomplete(s: Bytes, min: nat, max: nat) {
    CutAll(s, min, max) == Cut([], s, true)
  }

  lemma {:induction false} RestIncomplete(s: Bytes, min: nat, max: nat)
    ensures CutAll(s, min, max).ok ==> Incomplete(CutAll(s, min, max).rest, min, max)
    ensures CutAll(s, min, max).ok ==> |CutAll(s, min, max).rest| < max + 4
    decreases |s|
  {
    if |s| >= 4 && min <= Get32(s, 0) <= max && |s| >= 4 + Get32(s, 0) {
      RestIncomplete(s[4 + Get32(s, 0)..], min, max);
    }
  }

  lemma CutStep(s: Bytes, min: nat, max: nat)
    ensures CutAll(s, min, max) ==
      if |s| < 4 then Cut([], s, true)
      else if Get32(s, 0) < min || Get32(s, 0) > max then Cut([], s, false)
      else if |s| < 4 + Get32(s, 0) then Cut([], s, true)
      else
        var n := 4 + Get32(s, 0);
        var c := CutAll(s[n..], min, max);
        Cut([s[4..n]] + c.records, c.rest, c.ok)
  {
  }

  lemma SameHeader(a: Bytes, b: Bytes)
    requires |a| >= 4
    ensures Get32(a + b, 0) == Get32(a, 0)
  {
  }

  /** Cutting what came first and then the rest is cutting everything at once. */
  lemma {:induction false} CutChunks(a: Bytes, b: Bytes, min: nat, max: nat)
    requires CutAll(a, min, max).ok
    ensures var c, d, e := CutAll(a, min, max), CutAll(CutAll(a, min, max).rest + b, min, max), CutAll(a + b, min, max);
      e == Cut(c.records + d.records, d.rest, d.ok)
    decreases |a|
  {
    hide CutAll, Get32;
    CutStep(a, min, max);
    var d := CutAll(CutAll(a, min, max).rest + b, min, max);
    if |a| >= 4 && min <= Get32(a, 0) <= max && |a| >= 4 + Get32(a, 0) {
      var n := 4 + Get32(a, 0);
      SameHeader(a, b);
      assert (a + b)[n..] == a[n..] + b && (a + b)[4..n] == a[4..n];
      CutChunks(a[n..], b, min, max);
      CutStep(a + b, min, max);
      var c := CutAll(a[n..], min, max);
      assert [a[4..n]] + (c.records + d.records) == ([a[4..n]] + c.records) + d.records;
    } else {
      assert [] + d.records == d.records;
    }
  }

  lemma CutPrefixed(r: Bytes, after: Bytes, min: nat, max: nat)
    requires min <= |r| <= max < 0x1_0000_0000
    ensures var c := CutAll(after, min, max); CutAll(Prefixed(r) + after, min, max) == Cut([r] + c.records, c.rest, c.ok)
  {
    hide CutAll, Get32, Be32;
    var s := Prefixed(r) + after;
    Be32Get(|r|);
    assert s == Be32(|r|) + (r + after);
    SameHeader(Be32(|r|), r + after);
    assert s[4..4 + |r|] == r && s[4 + |r|..] == after;
    CutStep(s, min, max);
  }

  lemma Associative(a: Bytes, b: Bytes, c: Bytes)
    ensures (a + b) + c == a + (b + c)
  {
  }

  ghost predicate Lengths(records: seq<Bytes>, min: nat, max: nat) {
    forall i :: 0 <= i < |records| ==> min <= |records[i]| <= max
  }

  /** Cutting undoes prefixing, and keeps an incomplete tail. */
  lemma {:induction false} CutStream(records: seq<Bytes>, tail: Bytes, min: nat, max: nat)
    requires Lengths(records, min, max) && max < 0x1_0000_0000 && Incomplete(tail, min, max)
    ensures CutAll(Stream(records) + tail, min, max) == Cut(records, tail, true)
  {
    hide CutAll, Prefixed;
    if records == [] {
      assert Stream(records) + tail == tail;
    } else {
      var first, rest := Prefixed(records[0]), Stream(records[1..]);
      CutPrefixed(records[0], rest + tail, min, max);
      CutStream(records[1..], tail, min, max);
      Associative(first, rest, tail);
      assert [records[0]] + records[1..] == records;
    }
  }

  // ---- the streaming decoder --------------------------------------------------------------------------------------------

  /** Buffers what is not yet a whole record.  Both stream decoders are this one with their own bounds. */
  class Decoder {
    const min: nat
    const max: nat
    var buf: Bytes

    constructor (lo: nat, hi: nat)
      ensures min == lo && max == hi && buf == []
    {
      min, max, buf := lo, hi, [];
    }

    /** The records completed by a chunk; a declared length out of bounds is an error and discards the records of this call. */
    method Push(chunk: Bytes) returns (ok: bool, records: seq<Bytes>)
      modifies this`buf
      ensures var c := CutAll(old(buf) + chunk, min, max);
        ok == c.ok && buf == c.rest && records == if ok then c.records else []
    {
      hide CutAll, Get32;
      buf := buf + chunk;
      ghost var all := CutAll(buf, min, max);
      records := [];
      assert [] + all.records == all.records;
      while true
        invariant all == Cut(records + CutAll(buf, min, max).records, CutAll(buf, min, max).rest, CutAll(buf, min, max).ok)
        decreases |buf|
      {
        CutStep(buf, min, max);
        if |buf| < 4 {
          break;
        }
        var len := Get32(buf, 0);
        if len < min {
          return false, [];
        }
        if len > max {
          return false, [];
        }
        var total := 4 + len;
        if |buf| < total {
          break;
        }
        ghost var c := CutAll(buf[total..], min, max);
        assert records + ([buf[4..total]] + c.records) == (records + [buf[4..total]]) + c.records;
        records := records + [buf[4..total]];
        buf := buf[total..];
      }
      assert records + [] == records;
      ok := true;
    }
  }

  function Concat(chunks: seq<Bytes>): Bytes {
    if chunks == [] then [] else Concat(chunks[..|chunks| - 1]) + chunks[|chunks| - 1]
  }

  lemma {:induction false} PrefixOk(a: Bytes, b: Bytes, min: nat, max: nat)
    requires CutAll(a + b, min, max).ok
    ensures CutAll(a, min, max).ok
    decreases |a|
  {
    if |a| >= 4 {
      assert Get32(a + b, 0) == Get32(a, 0);
      var n := 4 + Get32(a, 0);
      if min <= Get32(a, 0) <= max && |a| >= n {
        assert (a + b)[n..] == a[n..] + b;
        PrefixOk(a[n..], b, min, max);
      }
    }
  }

  /** Any chunking of a well-formed stream gives its records in order and keeps the tail. */
  method DecodeChunks(chunks: seq<Bytes>, min: nat, max: nat, ghost records: seq<Bytes>, ghost tail: Bytes)
    returns (decoded: seq<Bytes>, pending: Bytes)
    requires Lengths(records, min, max) && max < 0x1_0000_0000 && Incomplete(tail, min, max)
    requires Concat(chunks) == Stream(records) + tail
    ensures decoded == records && pending == tail
  {
    hide CutAll;
    var decoder := new Decoder(min, max);
    decoded := [];
    CutStream(records, tail, min, max);
    assert chunks[..|chunks|] == chunks;
    NothingCut(min, max);
    for i := 0 to |chunks|
      invariant CutAll(Concat(chunks[..i]), min, max) == Cut(decoded, decoder.buf, true)
    {
      ghost var before := Concat(chunks[..i]);
      assert chunks[..i + 1][..i] == chunks[..i];
      CutChunks(before, chunks[i], min, max);
      PartOk(chunks, i + 1, min, max);
      var ok, got := decoder.Push(chunks[i]);
      decoded := decoded + got;
    }
    pending := decoder.buf;
  }

  lemma NothingCut(min: nat, max: nat)
    ensures CutAll(Concat([]), min, max) == Cut([], [], true)
  {
  }

  lemma {:induction false} PartOk(chunks: seq<Bytes>, i: nat, min: nat, max: nat)
    requires i <= |chunks| && CutAll(Concat(chunks), min, max).ok
    ensures CutAll(Concat(chunks[..i]), min, max).ok
  {
    hide CutAll;
    if i < |chunks| {
      PrefixOk(Concat(chunks[..|chunks| - 1]), chunks[|chunks| - 1], min, max);
      assert chunks[..|chunks| - 1][..i] == chunks[..i];
      PartOk(chunks[..|chunks| - 1], i, min, max);
    } else {
      assert chunks[..i] == chunks;
    }
  }

  // ---- frames -----------------------------------------------------------------------------------------------------------------

  const MIN_BODY_LEN := 5
  const MAX_FRAME_LEN := 4 * 1024 * 1024

  /** A message; the payload is the text of a JSON value and stays uninterpreted. */
  datatype Frame = Frame(kind: nat, sessionId: nat, payload: Bytes)

  datatype Option<T> = None | Some(value: T)

  /** None where the source throws: a type or session id out of range, or a body over the limit. */
  function EncodeFrame(f: Frame): (r: Option<Bytes>)
  {
    if f.kind > 0xff || f.sessionId > 0xffff_ffff || MIN_BODY_LEN + |f.payload| > MAX_FRAME_LEN then None
    else Some(Prefixed(Body(f)))
  }

  function Body(f: Frame): Bytes {
    [f.kind] + Be32(f.sessionId) + f.payload
  }

  function ParseBody(body: Bytes): Frame
    requires |body| >= MIN_BODY_LEN
  {
    Frame(body[0], Get32(body, 1), body[5..])
  }

  /** What goes on the wire, byte by byte: the length of what follows in bytes 0 to 3, the type in byte 4, the session id in
      bytes 5 to 8, both numbers highest byte first, and then the payload. */
  lemma WireLayout(f: Frame)
    requires f.kind < 256 && f.sessionId < 0x1_0000_0000 && 5 + |f.payload| < 0x1_0000_0000
    ensures var b := Prefixed(Body(f));
      && |b| == 9 + |f.payload| && IsBytes(b[..9])
      && 0x100_0000 * b[0] + 0x1_0000 * b[1] + 0x100 * b[2] + b[3] == 5 + |f.payload|
      && b[4] == f.kind
      && 0x100_0000 * b[5] + 0x1_0000 * b[6] + 0x100 * b[7] + b[8] == f.sessionId
      && b[9..] == f.payload
  {
    hide Be32, Get32;
    Be32Get(5 + |f.payload|);
    Be32Get(f.sessionId);
    var b := Prefixed(Body(f));
    assert b == Be32(5 + |f.payload|) + ([f.kind] + Be32(f.sessionId) + f.payload);
    assert b[..9] == Be32(5 + |f.payload|) + [f.kind] + Be32(f.sessionId);
  }

  /** The host throws exactly for a type over one byte, a session id over four, or a body over four megabytes; otherwise the
      encoding has the layout of the wire. */
  lemma EncodedLayout(f: Frame)
    ensures EncodeFrame(f).None? <==> f.kind > 255 || f.sessionId > 4294967295 || 5 + |f.payload| > 4194304
    ensures EncodeFrame(f).Some? ==>
      var b := EncodeFrame(f).value;
      && |b| == 9 + |f.payload| && IsBytes(b[..9])
      && 0x100_0000 * b[0] + 0x1_0000 * b[1] + 0x100 * b[2] + b[3] == 5 + |f.payload|
      && b[4] == f.kind
      && 0x100_0000 * b[5] + 0x1_0000 * b[6] + 0x100 * b[7] + b[8] == f.sessionId
      && b[9..] == f.payload
  {
    hide Body, Prefixed;
    if EncodeFrame(f).Some? {
      WireLayout(f);
    }
  }

  /** The frames are what the bodies hold. */
  ghost predicate FramesAre(frames: seq<Frame>, bodies: seq<Bytes>) {
    |frames| == |bodies| && forall i :: 0 <= i < |bodies| ==> |bodies[i]| >= MIN_BODY_LEN && frames[i] == ParseBody(bodies[i])
  }

  lemma {:induction false} CutLengths(s: Bytes, min: nat, max: nat)
    ensures Lengths(CutAll(s, min, max).records, min, max)
    decreases |s|
  {
    if |s| >= 4 && min <= Get32(s, 0) <= max && |s| >= 4 + Get32(s, 0) {
      CutLengths(s[4 + Get32(s, 0)..], min, max);
    }
  }

  lemma FramesJoin(f: seq<Frame>, a: seq<Bytes>, g: seq<Frame>, b: seq<Bytes>)
    requires FramesAre(f, a) && FramesAre(g, b)
    ensures FramesAre(f + g, a + b)
  {
    hide ParseBody;
  }

  lemma BodyParses(f: Frame)
    requires f.sessionId < 0x1_0000_0000
    ensures |Body(f)| == MIN_BODY_LEN + |f.payload| && ParseBody(Body(f)) == f
  {
    Be32Get(f.sessionId);
    assert Get32(Body(f), 1) == Get32(Be32(f.sessionId), 0);
  }

  /** Types and session ids fit their bytes, and no body is longer than max. */
  ghost predicate Sendable(frames: seq<Frame>, max: nat) {
    forall i :: 0 <= i < |frames| ==>
      frames[i].kind < 256 && frames[i].sessionId < 0x1_0000_0000 && MIN_BODY_LEN + |frames[i].payload| <= max
  }

  /** The frames as they go on the wire, one after the other. */
  function Encoded(frames: seq<Frame>): Bytes {
    if frames == [] then [] else Prefixed(Body(frames[0])) + Encoded(frames[1..])
  }

  function Bodies(frames: seq<Frame>): (b: seq<Bytes>)
    ensures |b| == |frames| && forall i :: 0 <= i < |b| ==> b[i] == Body(frames[i])
  {
    seq(|frames|, i requires 0 <= i < |frames| => Body(frames[i]))
  }

  lemma {:induction false} EncodedIsStream(frames: seq<Frame>)
    ensures Encoded(frames) == Stream(Bodies(frames))
  {
    if frames != [] {
      EncodedIsStream(frames[1..]);
      assert Bodies(frames)[1..] == Bodies(frames[1..]);
    }
  }

  /** Frames sent one after the other, by either side, are the frames the other side decodes, with the incomplete tail
      pending; max is the longest body the receiver accepts. */
  lemma FramesRoundTrip(frames: seq<Frame>, tail: Bytes, max: nat)
    requires Sendable(frames, max) && max < 0x1_0000_0000 && Incomplete(tail, MIN_BODY_LEN, max)
    ensures var c := CutAll(Encoded(frames) + tail, MIN_BODY_LEN, max); c.ok && c.rest == tail && FramesAre(frames, c.records)
  {
    hide Body, ParseBody, CutAll;
    EncodedIsStream(frames);
    forall i | 0 <= i < |frames|
      ensures MIN_BODY_LEN <= |Body(frames[i])| <= max && ParseBody(Body(frames[i])) == frames[i]
    {
      BodyParses(frames[i]);
    }
    CutStream(Bodies(frames), tail, MIN_BODY_LEN, max);
  }

  lemma SameFrames(f: seq<Frame>, g: seq<Frame>, bodies: seq<Bytes>)
    requires FramesAre(f, bodies) && FramesAre(g, bodies)
    ensures f == g
  {
    hide ParseBody;
  }
}
