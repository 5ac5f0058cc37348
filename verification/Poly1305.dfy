/** The incremental Poly1305 interface: any split of a message gives the tag of section 2.5 of RFC 8439. */
module Poly1305 {
  import opened PolyLimbs

  // ---- the standard ---------------------------------------------------------------------------------------------------------

  ghost predicate Bytes(b: seq<nat>) {
    forall i :: 0 <= i < |b| ==> b[i] < 256
  }

  /** Little-endian value. */
  function Little(b: seq<nat>): nat {
    if b == [] then 0 else b[0] + 256 * Little(b[1..])
  }

  function Pow256(n: nat): nat {
    if n == 0 then 1 else 256 * Pow256(n - 1)
  }

  /** The block with a one byte appended is added, and the sum multiplied by r. */
  function Absorb(r: nat, a: nat, block: seq<nat>): nat {
    (a + Little(block) + Pow256(|block|)) * r % P
  }

  /** The accumulator after a message: blocks of sixteen bytes, the last one possibly shorter. */
  function Accumulate(r: nat, message: seq<nat>): nat {
    if message == [] then 0
    else
      var k := (|message| - 1) / 16 * 16;
      Absorb(r, Accumulate(r, message[..k]), message[k..])
  }

  /** The first half of the key: the top four bits of bytes 3, 7, 11 and 15 and the low two of bytes 4, 8 and 12 are cleared. */
  function ClampedKey(key: seq<nat>): (b: seq<nat>)
    requires |key| == 32
    ensures |b| == 16
  {
    seq(16, i requires 0 <= i < 16 =>
      if i % 4 == 3 then key[i] % 16 else if i % 4 == 0 && i > 0 then key[i] / 4 * 4 else key[i])
  }

  /** Four little-endian bytes. */
  function Load32(b: seq<nat>, i: nat): nat
    requires i + 4 <= |b|
  {
    b[i] + 256 * b[i + 1] + 0x10000 * b[i + 2] + 0x1000000 * b[i + 3]
  }

  function KeyR(key: seq<nat>): nat
    requires |key| == 32
  {
    Little(ClampedKey(key))
  }

  function KeyPad(key: seq<nat>): nat
    requires |key| == 32
  {
    Little(key[16..])
  }

  /** The tag as a number below 2^128. */
  function Tag(key: seq<nat>, message: seq<nat>): nat
    requires |key| == 32
  {
    (Accumulate(KeyR(key), message) + KeyPad(key)) % B4
  }

  // ---- the key in 32-bit words --------------------------------------------------------------------------------------------------

  /** A word with its top four bits cleared, and with the low two bits cleared as well. */
  function ClampTop(x: nat): nat { x % 0x1000_0000 }

  function Clamp(x: nat): nat { x % 0x1000_0000 / 4 * 4 }

  lemma WordClamped(a: nat, b: nat, c: nat, d: nat)
    requires a < 256 && b < 256 && c < 256
    ensures var x := a + 256 * b + 0x10000 * c + 0x1000000 * d;
      && ClampTop(x) == a + 256 * b + 0x10000 * c + 0x1000000 * (d % 16)
      && Clamp(x) == a / 4 * 4 + 256 * b + 0x10000 * c + 0x1000000 * (d % 16)
  {
    var low := a + 256 * b + 0x10000 * c;
    ClampTopIs(low, d);
    LowTwo(a, 64 * b + 0x4000 * c + 0x400000 * (d % 16));
  }

  lemma LowTwo(a: nat, h: nat)
    ensures (a + 4 * h) / 4 * 4 == a / 4 * 4 + 4 * h
  {
  }

  lemma ClampTopIs(low: nat, d: nat)
    requires low < 0x1000000
    ensures (low + 0x1000000 * d) % 0x1000_0000 == low + 0x1000000 * (d % 16)
  {
  }

  /** Clamping the words is clamping the bytes. */
  lemma KeyClamped(key: seq<nat>)
    requires |key| == 32 && Bytes(key)
    ensures KeyR(key) ==
      Value(ClampTop(Load32(key, 0)), Clamp(Load32(key, 4)), Clamp(Load32(key, 8)), Clamp(Load32(key, 12)), 0)
  {
    hide Little, Clamp, ClampTop, Value;
    LittleSixteen(ClampedKey(key));
    WordClamped(key[0], key[1], key[2], key[3]);
    WordClamped(key[4], key[5], key[6], key[7]);
    WordClamped(key[8], key[9], key[10], key[11]);
    WordClamped(key[12], key[13], key[14], key[15]);
  }

  /** Which bits of the key the multiplier has, byte by byte. */
  lemma KeyBytes(key: seq<nat>)
    requires |key| == 32
    ensures exists b: seq<nat> ::
      && KeyR(key) == Little(b) && |b| == 16
      && b[3] == key[3] % 16 && b[7] == key[7] % 16 && b[11] == key[11] % 16 && b[15] == key[15] % 16
      && b[4] == key[4] - key[4] % 4 && b[8] == key[8] - key[8] % 4 && b[12] == key[12] - key[12] % 4
      && forall i :: i in {0, 1, 2, 5, 6, 9, 10, 13, 14} ==> b[i] == key[i]
  {
    hide Little;
    var b := ClampedKey(key);
    assert KeyR(key) == Little(b);
  }

  // ---- little-endian words ----------------------------------------------------------------------------------------------------

  lemma LoadSmall(b: seq<nat>, i: nat)
    requires Bytes(b) && i + 4 <= |b|
    ensures Load32(b, i) < B
  {
  }

  lemma LittleStep(b: seq<nat>)
    requires b != []
    ensures Little(b) == b[0] + 256 * Little(b[1..])
  {
  }

  lemma LittleFour(b: seq<nat>)
    requires |b| >= 4
    ensures Little(b) == Load32(b, 0) + B * Little(b[4..])
  {
    hide Little;
    LittleStep(b);
    LittleStep(b[1..]);
    LittleStep(b[2..]);
    LittleStep(b[3..]);
    assert b[1..][1..] == b[2..] && b[2..][1..] == b[3..] && b[3..][1..] == b[4..];
  }

  /** Sixteen bytes are four words. */
  lemma LittleSixteen(b: seq<nat>)
    requires |b| == 16
    ensures Little(b) == Value(Load32(b, 0), Load32(b, 4), Load32(b, 8), Load32(b, 12), 0)
  {
    hide Little;
    LittleFour(b);
    LittleFour(b[4..]);
    LittleFour(b[8..]);
    LittleFour(b[12..]);
    assert b[4..][4..] == b[8..] && b[8..][4..] == b[12..] && b[12..][4..] == [];
    assert Load32(b[4..], 0) == Load32(b, 4) && Load32(b[8..], 0) == Load32(b, 8) && Load32(b[12..], 0) == Load32(b, 12);
    LittleEmpty();
  }

  lemma LittleEmpty()
    ensures Little([]) == 0
  {
  }

  lemma {:induction false} LittleAppend(a: seq<nat>, b: seq<nat>)
    ensures Little(a + b) == Little(a) + Pow256(|a|) * Little(b)
  {
    if a == [] {
      assert a + b == b;
    } else {
      assert (a + b)[1..] == a[1..] + b;
      LittleAppend(a[1..], b);
      var p, l := Pow256(|a| - 1), Little(b);
      assert Pow256(|a|) == 256 * p;
      assert 256 * p * l == 256 * (p * l);
    }
  }

  lemma {:induction false} LittleZeros(n: nat)
    ensures Little(seq(n, _ => 0)) == 0
  {
    if n > 0 {
      assert seq(n, _ => 0)[1..] == seq(n - 1, _ => 0);
      LittleZeros(n - 1);
    }
  }

  lemma Pow256Sixteen()
    ensures Pow256(16) == B4
  {
    assert Pow256(4) == B;
    assert Pow256(8) == B2;
    assert Pow256(12) == B3;
  }

  // ---- the accumulator ----------------------------------------------------------------------------------------------------------

  /** Whole blocks are absorbed one after the other. */
  lemma AccumulateBlock(r: nat, message: seq<nat>, block: seq<nat>)
    requires |message| % 16 == 0 && 0 < |block| <= 16
    ensures Accumulate(r, message + block) == Absorb(r, Accumulate(r, message), block)
  {
    hide Absorb;
    var all := message + block;
    var k := (|all| - 1) / 16 * 16;
    assert k == |message|;
    assert all[..k] == message && all[k..] == block;
  }

  lemma ModSame(a: int, k: int)
    ensures (a + P * k) % P == a % P
  {
  }

  lemma ModMul(a: nat, b: nat, r: nat, c: nat)
    requires a % P == b
    ensures (a + c) * r % P == (b + c) * r % P
  {
    var q := a / P;
    var pq, bc := P * q, b + c;
    assert a + c == bc + pq;
    MulAdd(r, bc, pq);
    MulOut(r, q, P);
    assert (a + c) * r == bc * r + P * (q * r);
    ModSame(bc * r, q * r);
  }

  /** The five limbs denote a number congruent to a. */
  ghost predicate Denotes(h: seq<nat>, a: nat) {
    |h| == 5 && Reduced(h[0], h[1], h[2], h[3], h[4]) && Value(h[0], h[1], h[2], h[3], h[4]) % P == a
  }

  /** Little-endian value of a block as the limbs see it, with the bit at 2^128 set or already inside the bytes. */
  ghost predicate BlockValue(bytes: seq<nat>, end: nat, block: seq<nat>) {
    |bytes| == 16 && Little(bytes) + end * B4 == Little(block) + Pow256(|block|)
  }

  lemma FullBlock(block: seq<nat>)
    requires |block| == 16
    ensures BlockValue(block, 1, block)
  {
    Pow256Sixteen();
  }

  /** Zero padding after a one byte. */
  lemma PartialBlock(bytes: seq<nat>, n: nat)
    requires |bytes| == 16 && n < 16 && bytes[n] == 1 && forall i :: n < i < 16 ==> bytes[i] == 0
    ensures BlockValue(bytes, 0, bytes[..n])
  {
    hide Little;
    assert bytes == bytes[..n] + bytes[n..];
    LittleAppend(bytes[..n], bytes[n..]);
    LittleStep(bytes[n..]);
    assert bytes[n..][1..] == seq(15 - n, _ => 0);
    LittleZeros(15 - n);
    assert Pow256(n) * 1 == Pow256(n);
  }

  /** What poly_blocks does to the residue with one block: (h + c + end 2^128) r. */
  function Step(r: nat, a: nat, bytes: seq<nat>, end: nat): nat {
    (a + (Little(bytes) + end * B4)) * r % P
  }

  /** The same for n blocks in a row. */
  function Steps(r: nat, a: nat, input: seq<nat>, n: nat, end: nat): nat
    requires 16 * n <= |input|
  {
    if n == 0 then a else Step(r, Steps(r, a, input, n - 1, end), input[16 * (n - 1)..16 * n], end)
  }

  lemma StepAbsorbs(r: nat, a: nat, bytes: seq<nat>, end: nat, block: seq<nat>)
    requires BlockValue(bytes, end, block)
    ensures Step(r, a, bytes, end) == Absorb(r, a, block)
  {
  }

  /** Whole blocks extend the message. */
  lemma {:induction false} StepsAccumulate(r: nat, message: seq<nat>, input: seq<nat>, n: nat)
    requires |message| % 16 == 0 && 16 * n <= |input|
    ensures Steps(r, Accumulate(r, message), input, n, 1) == Accumulate(r, message + input[..16 * n])
  {
    hide Accumulate, Step, Absorb;
    if n == 0 {
      assert message + input[..0] == message;
    } else {
      StepsAccumulate(r, message, input, n - 1);
      var before, block := message + input[..16 * (n - 1)], input[16 * (n - 1)..16 * n];
      FullBlock(block);
      StepAbsorbs(r, Accumulate(r, before), block, 1, block);
      AccumulateBlock(r, before, block);
      assert before + block == message + input[..16 * n];
    }
  }

  lemma OneBlock(h: seq<nat>, a: nat, bytes: seq<nat>, end: nat, r: nat, n: seq<nat>, k: int)
    requires Denotes(h, a) && |bytes| == 16 && |n| == 5 && Reduced(n[0], n[1], n[2], n[3], n[4])
    requires (Value(h[0], h[1], h[2], h[3], h[4])
              + Value(Load32(bytes, 0), Load32(bytes, 4), Load32(bytes, 8), Load32(bytes, 12), end)) * r
          == Value(n[0], n[1], n[2], n[3], n[4]) + P * k
    ensures Denotes(n, Step(r, a, bytes, end))
  {
    hide Little, Load32, Pow256;
    var hv, nv := Value(h[0], h[1], h[2], h[3], h[4]), Value(n[0], n[1], n[2], n[3], n[4]);
    LittleSixteen(bytes);
    ModSame(nv, k);
    ModMul(hv, a, r, Little(bytes) + end * B4);
  }

  // ---- the context ------------------------------------------------------------------------------------------------------------------

  ghost predicate Limbs(r: seq<nat>) {
    |r| == 4 && r[0] < B && r[1] < B && r[2] < B && r[3] < B
  }

  ghost function Four(r: seq<nat>): nat
    requires |r| == 4
  {
    Value(r[0], r[1], r[2], r[3], 0)
  }

  /** The bytes behind the whole blocks, after some more were appended. */
  lemma Behind(m: seq<nat>, data: seq<nat>, n: nat)
    requires n <= |m|
    ensures (m + data)[|m| - n..] == m[|m| - n..] + data && (m + data)[..|m| - n] == m[..|m| - n]
  {
  }

  lemma BytesCut(b: seq<nat>, n: nat)
    requires Bytes(b) && n <= |b|
    ensures Bytes(b[..n]) && Bytes(b[n..])
  {
  }

  lemma BytesJoined(a: seq<nat>, b: seq<nat>)
    requires Bytes(a) && Bytes(b)
    ensures Bytes(a + b)
  {
  }

  lemma Rejoined(m: seq<nat>, data: seq<nat>, n: nat)
    requires n <= |data|
    ensures (m + data[..n]) + data[n..] == m + data
  {
    assert data[..n] + data[n..] == data;
  }

  class Context {
    const h: array<nat>
    const r: array<nat>
    const pad: array<nat>
    const c: array<nat>
    var cIdx: nat
    /** What was absorbed so far. */
    ghost var message: seq<nat>
    ghost const key: seq<nat>

    /** h holds the accumulator of the whole blocks of m, c the bytes after them. */
    ghost predicate Holds(m: seq<nat>)
      reads this`cIdx, h, r, pad, c
    {
      && Shaped() && cIdx <= 16 && cIdx <= |m| && (|m| - cIdx) % 16 == 0
      && Bytes(m) && Bytes(c[..])
      && c[..cIdx] == m[|m| - cIdx..]
      && Denotes(h[..], Accumulate(KeyR(key), m[..|m| - cIdx]))
    }

    ghost predicate Valid()
      reads this, h, r, pad, c
    {
      Holds(message) && cIdx < 16
    }

    /** The arrays are distinct and the key's two halves are loaded. */
    ghost predicate Shaped()
      reads h, r, pad, c
    {
      && h.Length == 5 && r.Length == 4 && pad.Length == 4 && c.Length == 16
      && h != r && h != pad && h != c && r != pad && r != c && pad != c
      && |key| == 32 && Clamped(r[0], r[1], r[2], r[3]) && Limbs(pad[..])
      && Four(r[..]) == KeyR(key) && Four(pad[..]) == KeyPad(key)
    }

    constructor (k: seq<nat>)
      requires |k| == 32 && Bytes(k)
      ensures Valid() && key == k && message == []
      ensures fresh(h) && fresh(r) && fresh(pad) && fresh(c)
    {
      hide *;
      h := new nat[][0, 0, 0, 0, 0];
      c := new nat[16](_ => 0);
      r := new nat[][Load32(k, 0), Load32(k, 4), Load32(k, 8), Load32(k, 12)];
      pad := new nat[][Load32(k, 16), Load32(k, 20), Load32(k, 24), Load32(k, 28)];
      cIdx := 0;
      key := k;
      message := [];
      new;
      ghost var pads := pad[..];
      for i := 0 to 1
        modifies r
        invariant r[0] == if i == 0 then Load32(k, 0) else ClampTop(Load32(k, 0))
        invariant r[1] == Load32(k, 4) && r[2] == Load32(k, 8) && r[3] == Load32(k, 12)
      {
        r[i] := ClampTop(r[i]);
      }
      for i := 1 to 4
        modifies r
        invariant r[0] == ClampTop(Load32(k, 0))
        invariant forall j :: 1 <= j < 4 ==> r[j] == if j < i then Clamp(Load32(k, 4 * j)) else Load32(k, 4 * j)
      {
        r[i] := Clamp(r[i]);
      }
      assert r[..] == [ClampTop(Load32(k, 0)), Clamp(Load32(k, 4)), Clamp(Load32(k, 8)), Clamp(Load32(k, 12))];
      assert pads == [Load32(k, 16), Load32(k, 20), Load32(k, 24), Load32(k, 28)];
      KeyLoaded(k, r[..], pads);
      assert h[..] == [0, 0, 0, 0, 0];
      ZeroDenotes(h[..], KeyR(k));
      assert pad[..] == pads;
      Started();
    }

    lemma Started()
      requires h.Length == 5 && r.Length == 4 && pad.Length == 4 && c.Length == 16
      requires h != r && h != pad && h != c && r != pad && r != c && pad != c && |key| == 32
      requires Clamped(r[0], r[1], r[2], r[3]) && Limbs(pad[..]) && Four(r[..]) == KeyR(key) && Four(pad[..]) == KeyPad(key)
      requires cIdx == 0 && message == [] && Denotes(h[..], Accumulate(KeyR(key), []))
      requires forall i :: 0 <= i < 16 ==> c[i] == 0
      ensures Valid()
    {
      hide Denotes, Accumulate, KeyR, KeyPad, Four, Limbs, Clamped;
      assert message[..0] == [];
      assert Shaped();
    }

    method PolyBlocks(input: seq<nat>, nbBlocks: nat, end: nat, ghost a: nat)
      requires Shaped() && Denotes(h[..], a) && Bytes(input) && 16 * nbBlocks <= |input| && end <= 1
      modifies h
      ensures Shaped() && Denotes(h[..], Steps(KeyR(key), a, input, nbBlocks, end))
    {
      hide Load32, Value, Step, Bytes, KeyR, KeyPad, Four;
      var r0, r1, r2, r3 := r[0], r[1], r[2], r[3];
      var h0: u32, h1: u32, h2: u32, h3: u32, h4: u32 := h[0], h[1], h[2], h[3], h[4];
      ghost var r' := KeyR(key);
      assert Four(r[..]) == Value(r0, r1, r2, r3, 0) by { FourIs(r[..]); }
      for i := 0 to nbBlocks
        invariant Denotes([h0, h1, h2, h3, h4], Steps(r', a, input, i, end))
      {
        ghost var block := input[16 * i..16 * i + 16];
        ghost var was := [h0, h1, h2, h3, h4];
        LoadSmall(input, 16 * i); LoadSmall(input, 16 * i + 4); LoadSmall(input, 16 * i + 8); LoadSmall(input, 16 * i + 12);
        LoadPart(input, 16 * i);
        ghost var k;
        h0, h1, h2, h3, h4, k := Block(h0, h1, h2, h3, h4, Load32(input, 16 * i), Load32(input, 16 * i + 4),
                                       Load32(input, 16 * i + 8), Load32(input, 16 * i + 12), end, r0, r1, r2, r3);
        OneBlock(was, Steps(r', a, input, i, end), block, end, r', [h0, h1, h2, h3, h4], k);
        StepsNext(r', a, input, i, end);
      }
      h[0], h[1], h[2], h[3], h[4] := h0, h1, h2, h3, h4;
      assert h[..] == [h0, h1, h2, h3, h4];
    }

    /** Appends bytes to the block being collected. */
    method Collect(data: seq<nat>, ghost m: seq<nat>)
      requires Holds(m) && Bytes(data) && cIdx + |data| <= 16
      modifies this`cIdx, c
      ensures Holds(m + data) && cIdx == old(cIdx) + |data|
    {
      hide Denotes, Accumulate, KeyR, KeyPad, Four, Limbs, Clamped, Bytes;
      Behind(m, data, cIdx);
      BytesJoined(m, data);
      Store(data);
      assert h[..] == old(h[..]) && r[..] == old(r[..]) && pad[..] == old(pad[..]);
    }

    method Store(data: seq<nat>)
      requires c.Length == 16 && Bytes(c[..]) && Bytes(data) && cIdx + |data| <= 16
      modifies this`cIdx, c
      ensures cIdx == old(cIdx) + |data| && c[..cIdx] == old(c[..cIdx]) + data && Bytes(c[..])
    {
      ghost var base, was := cIdx, c[..cIdx];
      for i := 0 to |data|
        invariant cIdx == base + i && c[..cIdx] == was + data[..i] && Bytes(c[..])
      {
        c[cIdx] := data[i];
        cIdx := cIdx + 1;
      }
    }

    /** A full block is absorbed. */
    method Flush(ghost m: seq<nat>)
      requires Holds(m) && cIdx == 16
      modifies this`cIdx, h
      ensures Holds(m) && cIdx == 0
    {
      hide Denotes, Accumulate, KeyR, KeyPad, Four, Limbs, Clamped, Steps;
      ghost var whole, block := m[..|m| - 16], c[..];
      PolyBlocks(c[..], 1, 1, Accumulate(KeyR(key), whole));
      StepsAccumulate(KeyR(key), whole, block, 1);
      assert whole + block[..16 * 1] == m;
      cIdx := 0;
      assert m[..|m| - 0] == m;
    }

    /** Extends the message; how it is cut into updates does not matter. */
    method Update(data: seq<nat>)
      requires Valid() && Bytes(data)
      modifies this, h, c
      ensures Valid() && message == old(message) + data
    {
      hide Holds, Bytes;
      if |data| == 0 {
        assert message + data == message;
        return;
      }
      var room := (16 - cIdx) % 16;
      var aligned := if room < |data| then room else |data|;
      BytesCut(data, aligned);
      Rejoined(message, data, aligned);
      ghost var m := message + data[..aligned];
      TopUp(data[..aligned], message);
      TakeRest(data[aligned..], m);
      message := message + data;
    }

    /** Completes the block being collected as far as the part goes, and absorbs it if it is full. */
    method TopUp(part: seq<nat>, ghost m: seq<nat>)
      requires Holds(m) && Bytes(part) && cIdx + |part| <= 16
      modifies this`cIdx, h, c
      ensures Holds(m + part) && cIdx == if old(cIdx) + |part| == 16 then 0 else old(cIdx) + |part|
    {
      hide Holds, Bytes;
      Collect(part, m);
      if cIdx == 16 {
        Flush(m + part);
      }
    }

    /** Whole blocks, and a tail that starts a new one; there is nothing to take while a block is being collected. */
    method TakeRest(rest: seq<nat>, ghost m: seq<nat>)
      requires Holds(m) && Bytes(rest) && cIdx < 16 && (rest != [] ==> cIdx == 0)
      modifies this`cIdx, h, c
      ensures Holds(m + rest) && cIdx < 16
    {
      hide Holds, Bytes;
      var nbBlocks := |rest| / 16;
      BytesCut(rest, 16 * nbBlocks);
      Rejoined(m, rest, 16 * nbBlocks);
      Absorbed(rest, nbBlocks, m);
      Collect(rest[16 * nbBlocks..], m + rest[..16 * nbBlocks]);
    }

    /** Whole blocks of the message straight from the input. */
    method Absorbed(rest: seq<nat>, nbBlocks: nat, ghost m: seq<nat>)
      requires Holds(m) && Bytes(rest) && 16 * nbBlocks <= |rest| && (nbBlocks > 0 ==> cIdx == 0)
      modifies h
      ensures Holds(m + rest[..16 * nbBlocks]) && cIdx == old(cIdx)
    {
      hide Denotes, Accumulate, KeyR, KeyPad, Four, Limbs, Clamped, Steps;
      ghost var whole := m[..|m| - cIdx];
      PolyBlocks(rest, nbBlocks, 1, Accumulate(KeyR(key), whole));
      StepsAccumulate(KeyR(key), whole, rest, nbBlocks);
      ghost var m' := m + rest[..16 * nbBlocks];
      assert m'[..|m'| - cIdx] == whole + rest[..16 * nbBlocks];
      assert m'[|m'| - cIdx..] == m[|m| - cIdx..];
    }

    /** The last block, the final subtraction, and the pad: the sixteen bytes of the tag. */
    method Final() returns (mac: seq<nat>)
      requires Valid()
      modifies h, c
      ensures |mac| == 16 && Bytes(mac) && Little(mac) == Tag(key, message)
    {
      hide Accumulate, KeyR, KeyPad, Denotes, Four, Limbs, Clamped, Little;
      LastBlock();
      mac := Finish(Accumulate(KeyR(key), message));
    }

    /** The bytes left over, with a one after them and zeros up to sixteen. */
    method LastBlock()
      requires Valid()
      modifies h, c
      ensures Shaped() && Denotes(h[..], Accumulate(KeyR(key), message))
    {
      hide Denotes, Accumulate, KeyR, KeyPad, Four, Limbs, Clamped, Steps, Absorb, Step, BlockValue;
      if cIdx != 0 {
        ghost var whole, block := message[..|message| - cIdx], c[..cIdx];
        ZeroRest();
        c[cIdx] := 1;
        assert c[..cIdx] == block && Bytes(c[..]);
        PolyBlocks(c[..], 1, 0, Accumulate(KeyR(key), whole));
        PartialBlock(c[..], cIdx);
        OneStep(KeyR(key), Accumulate(KeyR(key), whole), c[..], 0);
        StepAbsorbs(KeyR(key), Accumulate(KeyR(key), whole), c[..], 0, block);
        AccumulateBlock(KeyR(key), whole, block);
        assert whole + block == message;
      } else {
        assert message[..|message| - 0] == message;
      }
    }

    method ZeroRest()
      requires Shaped() && cIdx < 16 && Bytes(c[..])
      modifies c
      ensures Shaped() && c[..cIdx] == old(c[..cIdx]) && forall i :: cIdx <= i < 16 ==> c[i] == 0
      ensures Bytes(c[..])
    {
      ghost var kept := c[..cIdx];
      for i := cIdx to 16
        invariant c[..cIdx] == kept && Bytes(c[..]) && forall k :: cIdx <= k < i ==> c[k] == 0
      {
        c[i] := 0;
      }
    }

    /** (h mod 2^130 - 5) + pad, modulo 2^128. */
    method Finish(ghost a: nat) returns (mac: seq<nat>)
      requires Shaped() && Denotes(h[..], a)
      ensures |mac| == 16 && Bytes(mac) && Little(mac) == (a + KeyPad(key)) % B4
    {
      hide KeyR, KeyPad, Little, Value;
      assert Four(pad[..]) == Value(pad[0], pad[1], pad[2], pad[3], 0);
      var carry := TopCarry();
      var c0: u64 := carry + h[0] + pad[0];
      var c1: u64 := c0 / B + h[1] + pad[1];
      var c2: u64 := c1 / B + h[2] + pad[2];
      var c3: u64 := c2 / B + h[3] + pad[3];
      mac := Store32(c0 % B) + Store32(c1 % B) + Store32(c2 % B) + Store32(c3 % B);
      StoredValue(c0 % B, c1 % B, c2 % B, c3 % B);
      Subtracted(h[0], h[1], h[2], h[3], h[4], a, carry, pad[0], pad[1], pad[2], pad[3], c0, c1, c2, c3);
    }

    /** Five times the number of subtractions of 2^130 - 5, which is 0 or 1. */
    method TopCarry() returns (carry: u64)
      requires Shaped() && Reduced(h[0], h[1], h[2], h[3], h[4])
      ensures carry == if Value(h[0], h[1], h[2], h[3], h[4]) >= P then 5 else 0
    {
      hide KeyR, KeyPad, Value;
      var k0: u64 := (5 + h[0]) / B;
      var k1: u64 := (k0 + h[1]) / B;
      var k2: u64 := (k1 + h[2]) / B;
      var k3: u64 := (k2 + h[3]) / B;
      carry := (k3 + h[4]) / 4 * 5;
      CarryTells(h[0], h[1], h[2], h[3], h[4], k0, k1, k2, k3);
    }
  }

  /** The little-endian bytes of a word. */
  function Store32(x: nat): (b: seq<nat>)
    ensures |b| == 4 && Bytes(b)
  {
    [x % 256, x / 256 % 256, x / 256 / 256 % 256, x / 256 / 256 / 256 % 256]
  }

  lemma StoreLoad(x: nat)
    requires x < B
    ensures Load32(Store32(x), 0) == x
  {
    var a, b, c := x / 256, x / 256 / 256, x / 256 / 256 / 256;
    assert x == 256 * a + x % 256 && a == 256 * b + a % 256 && b == 256 * c + b % 256 && c < 256;
  }

  lemma StoredValue(a: nat, b: nat, c: nat, d: nat)
    requires a < B && b < B && c < B && d < B
    ensures var m := Store32(a) + Store32(b) + Store32(c) + Store32(d); |m| == 16 && Bytes(m) && Little(m) == Value(a, b, c, d, 0)
  {
    hide Little, Value, Store32;
    var m := Store32(a) + Store32(b) + Store32(c) + Store32(d);
    LittleSixteen(m);
    StoreLoad(a); StoreLoad(b); StoreLoad(c); StoreLoad(d);
    assert Load32(m, 0) == Load32(Store32(a), 0) && Load32(m, 4) == Load32(Store32(b), 0);
    assert Load32(m, 8) == Load32(Store32(c), 0) && Load32(m, 12) == Load32(Store32(d), 0);
  }

  /** The carry of h + 5 out of bit 130 tells whether h is at least 2^130 - 5. */
  lemma CarryTells(h0: nat, h1: nat, h2: nat, h3: nat, h4: nat, k0: nat, k1: nat, k2: nat, k3: nat)
    requires Reduced(h0, h1, h2, h3, h4)
    requires k0 == (5 + h0) / B && k1 == (k0 + h1) / B && k2 == (k1 + h2) / B && k3 == (k2 + h3) / B
    ensures (k3 + h4) / 4 == if Value(h0, h1, h2, h3, h4) >= P then 1 else 0
  {
  }

  /** At most one subtraction reduces h; adding five instead is the same modulo 2^128. */
  lemma Subtracted(h0: nat, h1: nat, h2: nat, h3: nat, h4: nat, a: nat, carry: nat, p0: nat, p1: nat, p2: nat, p3: nat,
                   c0: nat, c1: nat, c2: nat, c3: nat)
    requires Reduced(h0, h1, h2, h3, h4) && Value(h0, h1, h2, h3, h4) % P == a
    requires carry == if Value(h0, h1, h2, h3, h4) >= P then 5 else 0
    requires c0 == carry + h0 + p0 && c1 == c0 / B + h1 + p1 && c2 == c1 / B + h2 + p2 && c3 == c2 / B + h3 + p3
    ensures Value(c0 % B, c1 % B, c2 % B, c3 % B, 0) == (a + Value(p0, p1, p2, p3, 0)) % B4
  {
    var hv, pv, low := Value(h0, h1, h2, h3, h4), Value(p0, p1, p2, p3, 0), Value(c0 % B, c1 % B, c2 % B, c3 % B, 0);
    assert a == if hv >= P then hv - P else hv by { ReducedOnce(h0, h1, h2, h3, h4); }
    Chained(h0, h1, h2, h3, h4, carry, p0, p1, p2, p3, c0, c1, c2, c3);
    hide Reduced, Value;
    LowPart(a + pv, low, c3 / B + h4 - if hv >= P then 4 else 0);
  }

  lemma ReducedOnce(h0: nat, h1: nat, h2: nat, h3: nat, h4: nat)
    requires Reduced(h0, h1, h2, h3, h4)
    ensures var hv := Value(h0, h1, h2, h3, h4); hv % P == if hv >= P then hv - P else hv
  {
  }

  /** The carries of a sum limb by limb come to one carry out of the top. */
  lemma Chained(h0: nat, h1: nat, h2: nat, h3: nat, h4: nat, carry: nat, p0: nat, p1: nat, p2: nat, p3: nat,
                c0: nat, c1: nat, c2: nat, c3: nat)
    requires c0 == carry + h0 + p0 && c1 == c0 / B + h1 + p1 && c2 == c1 / B + h2 + p2 && c3 == c2 / B + h3 + p3
    ensures Value(c0 % B, c1 % B, c2 % B, c3 % B, 0) < B4
    ensures Value(h0, h1, h2, h3, h4) + carry + Value(p0, p1, p2, p3, 0) ==
      Value(c0 % B, c1 % B, c2 % B, c3 % B, 0) + B4 * (c3 / B + h4)
  {
  }

  lemma LowPart(x: nat, low: nat, k: int)
    requires low < B4 && x == low + B4 * k
    ensures x % B4 == low
  {
  }

  lemma OneStep(r: nat, a: nat, bytes: seq<nat>, end: nat)
    requires |bytes| == 16
    ensures Steps(r, a, bytes, 1, end) == Step(r, a, bytes, end)
  {
    hide Step;
    assert bytes[16 * 0..16 * 1] == bytes;
    assert Steps(r, a, bytes, 0, end) == a;
  }

  lemma ZeroDenotes(h: seq<nat>, r: nat)
    requires h == [0, 0, 0, 0, 0]
    ensures Denotes(h, Accumulate(r, []))
  {
  }

  lemma FourIs(r: seq<nat>)
    requires |r| == 4
    ensures Four(r) == Value(r[0], r[1], r[2], r[3], 0)
  {
  }

  lemma StepsNext(r: nat, a: nat, input: seq<nat>, n: nat, end: nat)
    requires 16 * n + 16 <= |input|
    ensures Steps(r, a, input, n + 1, end) == Step(r, Steps(r, a, input, n, end), input[16 * n..16 * n + 16], end)
  {
  }

  lemma LoadPart(input: seq<nat>, k: nat)
    requires k + 16 <= |input|
    ensures var b := input[k..k + 16];
      Load32(b, 0) == Load32(input, k) && Load32(b, 4) == Load32(input, k + 4)
      && Load32(b, 8) == Load32(input, k + 8) && Load32(b, 12) == Load32(input, k + 12)
  {
  }

  lemma KeyLoaded(k: seq<nat>, r: seq<nat>, pad: seq<nat>)
    requires |k| == 32 && Bytes(k) && |r| == |pad| == 4
    requires r == [ClampTop(Load32(k, 0)), Clamp(Load32(k, 4)), Clamp(Load32(k, 8)), Clamp(Load32(k, 12))]
    requires pad == [Load32(k, 16), Load32(k, 20), Load32(k, 24), Load32(k, 28)]
    ensures Clamped(r[0], r[1], r[2], r[3]) && Limbs(pad) && Four(r) == KeyR(k) && Four(pad) == KeyPad(k)
  {
    hide Little, Load32, Value, KeyR;
    KeyClamped(k);
    LittleSixteen(k[16..]);
    LoadPart(k, 16);
    assert k[16..] == k[16..32];
    LoadSmall(k, 16); LoadSmall(k, 20); LoadSmall(k, 24); LoadSmall(k, 28);
  }

  function Concat(parts: seq<seq<nat>>): seq<nat> {
    if parts == [] then [] else Concat(parts[..|parts| - 1]) + parts[|parts| - 1]
  }

  /** However a message is cut into updates, the tag is that of the whole. */
  method MacOfParts(key: seq<nat>, parts: seq<seq<nat>>) returns (mac: seq<nat>)
    requires |key| == 32 && Bytes(key) && forall i :: 0 <= i < |parts| ==> Bytes(parts[i])
    ensures |mac| == 16 && Bytes(mac) && Little(mac) == Tag(key, Concat(parts))
  {
    hide *;
    var ctx := new Context(key);
    NoParts(parts);
    for i := 0 to |parts|
      invariant ctx.Valid() && ctx.key == key && ctx.message == Concat(parts[..i])
      invariant fresh(ctx) && fresh(ctx.h) && fresh(ctx.c)
    {
      NextPart(parts, i);
      ctx.Update(parts[i]);
    }
    mac := ctx.Final();
  }

  lemma NoParts(parts: seq<seq<nat>>)
    ensures Concat(parts[..0]) == [] && parts[..|parts|] == parts
  {
  }

  lemma NextPart(parts: seq<seq<nat>>, i: nat)
    requires i < |parts|
    ensures Concat(parts[..i + 1]) == Concat(parts[..i]) + parts[i]
  {
    assert parts[..i + 1][..i] == parts[..i];
  }

  // ---- the example of section 2.5.2 of RFC 8439 -----------------------------------------------------------------------------------

  const EXAMPLE_KEY: seq<nat> :=
    [0x85, 0xd6, 0xbe, 0x78, 0x57, 0x55, 0x6d, 0x33, 0x7f, 0x44, 0x52, 0xfe, 0x42, 0xd5, 0x06, 0xa8,
     0x01, 0x03, 0x80, 0x8a, 0xfb, 0x0d, 0xb2, 0xfd, 0x4a, 0xbf, 0xf6, 0xaf, 0x41, 0x49, 0xf5, 0x1b]

  /** "Cryptographic Forum Research Group" in blocks. */
  const BLOCK_0: seq<nat> := [0x43, 0x72, 0x79, 0x70, 0x74, 0x6f, 0x67, 0x72, 0x61, 0x70, 0x68, 0x69, 0x63, 0x20, 0x46, 0x6f]
  const BLOCK_1: seq<nat> := [0x72, 0x75, 0x6d, 0x20, 0x52, 0x65, 0x73, 0x65, 0x61, 0x72, 0x63, 0x68, 0x20, 0x47, 0x72, 0x6f]
  const BLOCK_2: seq<nat> := [0x75, 0x70]

  const EXAMPLE_MESSAGE := BLOCK_0 + BLOCK_1 + BLOCK_2

  /** Four and sixteen bytes as one sum. */
  lemma WordSum(b: seq<nat>, i: nat, b0: nat, b1: nat, b2: nat, b3: nat)
    requires i + 4 <= |b| && b[i] == b0 && b[i + 1] == b1 && b[i + 2] == b2 && b[i + 3] == b3
    ensures Load32(b, i) == b0 + 0x1_00 * b1 + 0x1_0000 * b2 + 0x1_00_0000 * b3
  {
  }

  lemma LittleSum(b0: nat, b1: nat, b2: nat, b3: nat, b4: nat, b5: nat, b6: nat, b7: nat,
                  b8: nat, b9: nat, b10: nat, b11: nat, b12: nat, b13: nat, b14: nat, b15: nat)
    ensures Little([b0, b1, b2, b3, b4, b5, b6, b7, b8, b9, b10, b11, b12, b13, b14, b15]) ==
      b0 + 0x1_00 * b1 + 0x1_0000 * b2 + 0x1_00_0000 * b3
      + 0x1_0000_0000 * (b4 + 0x1_00 * b5 + 0x1_0000 * b6 + 0x1_00_0000 * b7)
      + 0x1_0000_0000_0000_0000 * (b8 + 0x1_00 * b9 + 0x1_0000 * b10 + 0x1_00_0000 * b11)
      + 0x1_0000_0000_0000_0000_0000_0000 * (b12 + 0x1_00 * b13 + 0x1_0000 * b14 + 0x1_00_0000 * b15)
  {
    hide Little, Load32;
    var b := [b0, b1, b2, b3, b4, b5, b6, b7, b8, b9, b10, b11, b12, b13, b14, b15];
    LittleSixteen(b);
    WordSum(b, 0, b0, b1, b2, b3);
    WordSum(b, 4, b4, b5, b6, b7);
    WordSum(b, 8, b8, b9, b10, b11);
    WordSum(b, 12, b12, b13, b14, b15);
  }

  lemma ExampleR()
    ensures KeyR(EXAMPLE_KEY) == 0x806d5400e52447c036d555408bed685
  {
    hide Little;
    assert ClampedKey(EXAMPLE_KEY) == [0x85, 0xd6, 0xbe, 0x08, 0x54, 0x55, 0x6d, 0x03, 0x7c, 0x44, 0x52, 0x0e, 0x40, 0xd5, 0x06, 0x08];
    hide KeyR;
    KeyRIs(EXAMPLE_KEY);
    hide ClampedKey;
    LittleSum(0x85, 0xd6, 0xbe, 0x08, 0x54, 0x55, 0x6d, 0x03, 0x7c, 0x44, 0x52, 0x0e, 0x40, 0xd5, 0x06, 0x08);
  }

  lemma KeyRIs(key: seq<nat>)
    requires |key| == 32
    ensures KeyR(key) == Little(ClampedKey(key)) && KeyPad(key) == Little(key[16..])
  {
  }

  lemma ExamplePad()
    ensures KeyPad(EXAMPLE_KEY) == 0x1bf54941aff6bf4afdb20dfb8a800301
  {
    hide Little, KeyPad;
    KeyRIs(EXAMPLE_KEY);
    assert EXAMPLE_KEY[16..] == [0x01, 0x03, 0x80, 0x8a, 0xfb, 0x0d, 0xb2, 0xfd, 0x4a, 0xbf, 0xf6, 0xaf, 0x41, 0x49, 0xf5, 0x1b];
    LittleSum(0x01, 0x03, 0x80, 0x8a, 0xfb, 0x0d, 0xb2, 0xfd, 0x4a, 0xbf, 0xf6, 0xaf, 0x41, 0x49, 0xf5, 0x1b);
  }

  lemma LittleTwo(a: nat, b: nat)
    ensures Little([a, b]) == a + 256 * b
  {
    hide Little;
    LittleStep([a, b]);
    LittleStep([b]);
    LittleEmpty();
    assert [a, b][1..] == [b] && [b][1..] == [];
  }

  lemma ExampleBlocks()
    ensures Little(BLOCK_0) == 0x6f4620636968706172676f7470797243
    ensures Little(BLOCK_1) == 0x6f7247206863726165736552206d7572
    ensures Little(BLOCK_2) == 0x7075
  {
    hide Little;
    LittleSum(0x43, 0x72, 0x79, 0x70, 0x74, 0x6f, 0x67, 0x72, 0x61, 0x70, 0x68, 0x69, 0x63, 0x20, 0x46, 0x6f);
    LittleSum(0x72, 0x75, 0x6d, 0x20, 0x52, 0x65, 0x73, 0x65, 0x61, 0x72, 0x63, 0x68, 0x20, 0x47, 0x72, 0x6f);
    LittleTwo(0x75, 0x70);
  }

  /** The accumulator after each of the three blocks, as the RFC lists them. */
  lemma ExampleSteps()
    ensures var r := 0x806d5400e52447c036d555408bed685;
      && Absorb(r, 0, BLOCK_0) == 0x2c88c77849d64ae9147ddeb88e69c83fc
      && Absorb(r, 0x2c88c77849d64ae9147ddeb88e69c83fc, BLOCK_1) == 0x2d8adaf23b0337fa7cccfb4ea344b30de
      && Absorb(r, 0x2d8adaf23b0337fa7cccfb4ea344b30de, BLOCK_2) == 0x28d31b7caff946c77c8844335369d03a7
  {
    hide Little, Absorb;
    ExampleBlocks();
    Pow256Sixteen();
    assert Pow256(2) == 0x10000 && |BLOCK_0| == |BLOCK_1| == 16 && |BLOCK_2| == 2;
    hide Pow256;
    var r := 0x806d5400e52447c036d555408bed685;
    AbsorbIs(r, 0, BLOCK_0, 0x16f4620636968706172676f7470797243);
    AbsorbIs(r, 0x2c88c77849d64ae9147ddeb88e69c83fc, BLOCK_1, 0x16f7247206863726165736552206d7572);
    AbsorbIs(r, 0x2d8adaf23b0337fa7cccfb4ea344b30de, BLOCK_2, 0x17075);
  }

  lemma AbsorbIs(r: nat, a: nat, block: seq<nat>, n: nat)
    requires Little(block) + Pow256(|block|) == n
    ensures Absorb(r, a, block) == (a + n) * r % P
  {
  }

  lemma ExampleAccumulates()
    ensures Accumulate(KeyR(EXAMPLE_KEY), EXAMPLE_MESSAGE) == 0x28d31b7caff946c77c8844335369d03a7
  {
    hide KeyR, Absorb, Accumulate;
    ExampleR();
    ExampleSteps();
    ThreeBlocks(KeyR(EXAMPLE_KEY), BLOCK_0, BLOCK_1, BLOCK_2);
  }

  lemma ThreeBlocks(r: nat, a: seq<nat>, b: seq<nat>, c: seq<nat>)
    requires |a| == |b| == 16 && 0 < |c| <= 16
    ensures Accumulate(r, a + b + c) == Absorb(r, Absorb(r, Absorb(r, 0, a), b), c)
  {
    assert Accumulate(r, []) == 0;
    hide Accumulate, Absorb;
    assert [] + a == a;
    AccumulateBlock(r, [], a);
    AccumulateBlock(r, a, b);
    AccumulateBlock(r, a + b, c);
  }

  lemma {:induction false} LittleInjective(a: seq<nat>, b: seq<nat>)
    requires |a| == |b| && Bytes(a) && Bytes(b) && Little(a) == Little(b)
    ensures a == b
  {
    if a != [] {
      LowByte(a[0], Little(a[1..]), b[0], Little(b[1..]));
      TailBytes(a);
      TailBytes(b);
      hide Bytes, Little;
      LittleInjective(a[1..], b[1..]);
      assert a == [a[0]] + a[1..] && b == [b[0]] + b[1..];
    }
  }

  lemma TailBytes(b: seq<nat>)
    requires b != [] && Bytes(b)
    ensures Bytes(b[1..])
  {
  }

  lemma LowByte(a: nat, x: nat, b: nat, y: nat)
    requires a < 256 && b < 256 && a + 256 * x == b + 256 * y
    ensures a == b && x == y
  {
  }

  /** The code computes the tag of the example, however the message is cut. */
  method ExampleMac(parts: seq<seq<nat>>) returns (mac: seq<nat>)
    requires Concat(parts) == EXAMPLE_MESSAGE && forall i :: 0 <= i < |parts| ==> Bytes(parts[i])
    ensures mac == [0xa8, 0x06, 0x1d, 0xc1, 0x30, 0x51, 0x36, 0xc6, 0xc2, 0x2b, 0x8b, 0xaf, 0x0c, 0x01, 0x27, 0xa9]
  {
    hide *;
    KeyIsBytes();
    mac := MacOfParts(EXAMPLE_KEY, parts);
    ExampleTag(mac);
  }

  lemma KeyIsBytes()
    ensures |EXAMPLE_KEY| == 32 && Bytes(EXAMPLE_KEY)
  {
  }

  lemma ExampleTag(mac: seq<nat>)
    requires |mac| == 16 && Bytes(mac) && Little(mac) == Tag(EXAMPLE_KEY, EXAMPLE_MESSAGE)
    ensures mac == [0xa8, 0x06, 0x1d, 0xc1, 0x30, 0x51, 0x36, 0xc6, 0xc2, 0x2b, 0x8b, 0xaf, 0x0c, 0x01, 0x27, 0xa9]
  {
    hide KeyR, KeyPad, Accumulate, Little, Bytes;
    ExampleAccumulates();
    ExamplePad();
    LittleSum(0xa8, 0x06, 0x1d, 0xc1, 0x30, 0x51, 0x36, 0xc6, 0xc2, 0x2b, 0x8b, 0xaf, 0x0c, 0x01, 0x27, 0xa9);
    TagBytes();
    LittleInjective(mac, [0xa8, 0x06, 0x1d, 0xc1, 0x30, 0x51, 0x36, 0xc6, 0xc2, 0x2b, 0x8b, 0xaf, 0x0c, 0x01, 0x27, 0xa9]);
  }

  lemma TagBytes()
    ensures Bytes([0xa8, 0x06, 0x1d, 0xc1, 0x30, 0x51, 0x36, 0xc6, 0xc2, 0x2b, 0x8b, 0xaf, 0x0c, 0x01, 0x27, 0xa9])
  {
  }
}
