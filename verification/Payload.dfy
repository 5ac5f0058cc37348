/** The encoder packs byte segments into codewords; the decoder reads segments of every mode. */
module Payload {
  import opened Bits
  import opened BitStream
  import opened Versions
  import opened Codestream
  import opened Segments

  /** Eight bits a byte. */
  function BytesBits(p: seq<nat>): (b: seq<bool>)
    ensures |b| == 8 * |p|
  {
    if p == [] then [] else BytesBits(p[..|p| - 1]) + BitsOf(p[|p| - 1], 8)
  }

  /** Mode 0100, the count, the bytes, and the terminator 0000. */
  function SegmentBits(p: seq<nat>, v: nat): (b: seq<bool>)
    ensures |b| == 8 + CountWidth(BYTE, v) + 8 * |p|
  {
    HeadBits(BYTE, |p|, v, BytesBits(p)) + BitsOf(0, 4)
  }

  /** From byte `from` on, 0xec and 0x11 in turn. */
  predicate PadsFrom(bytes: seq<nat>, from: nat) {
    forall k :: from <= k < |bytes| ==> bytes[k] == if (k - from) % 2 == 0 then 0xec else 0x11
  }

  /** The codewords begin with the segment for p. */
  ghost predicate Carries(bytes: seq<nat>, p: seq<nat>, v: nat) {
    |SegmentBits(p, v)| <= 8 * |bytes| && BitsAt(bytes, 0, |SegmentBits(p, v)|) == SegmentBits(p, v)
  }

  // ---- encoder -------------------------------------------------------------------------------------------------

  method Push(bits: seq<bool>, value: nat, count: nat) returns (r: seq<bool>)
    ensures r == bits + BitsOf(value, count)
  {
    r := bits;
    for i := count downto 0
      invariant r == bits + BitsOf(value, count)[..count - i]
    {
      BitsOfAt(value, count, count - 1 - i);
      r := r + [value / Pow2(i) % 2 == 1];
    }
  }

  lemma {:induction false} BitsOfValue(b: seq<bool>)
    ensures BitsOf(Value(b), |b|) == b
  {
    if b != [] {
      BitsOfValue(b[..|b| - 1]);
    }
  }

  lemma {:induction false} ValueLess(b: seq<bool>)
    ensures Value(b) < Pow2(|b|)
  {
    if b != [] {
      ValueLess(b[..|b| - 1]);
    }
  }

  /** Folds eight bits into a byte. */
  method PackByte(bits: seq<bool>, i: nat) returns (byte: nat)
    requires i + 8 <= |bits|
    ensures byte < 256 && BitsOf(byte, 8) == bits[i..i + 8]
  {
    byte := 0;
    for j := 0 to 8
      invariant byte == Value(bits[i..i + j])
    {
      assert bits[i..i + j + 1][..j] == bits[i..i + j];
      byte := 2 * byte + if bits[i + j] then 1 else 0;
    }
    BitsOfValue(bits[i..i + 8]);
    ValueLess(bits[i..i + 8]);
    PowersOfTwo();
  }

  ghost predicate Octets(out: seq<nat>) {
    forall i :: 0 <= i < |out| ==> out[i] < 256
  }

  /** Byte k of the first n holds the k-th eight bits. */
  ghost predicate Packed(out: seq<nat>, bits: seq<bool>, n: nat) {
    8 * n <= |bits| && n <= |out| && forall k :: 0 <= k < n ==> BitsOf(out[k], 8) == bits[8 * k..8 * k + 8]
  }

  /** Bytes from the bits, then alternating pad bytes. */
  method PackAndPad(bits: seq<bool>, cwTotal: nat) returns (out: array<nat>)
    requires |bits| % 8 == 0 && |bits| <= 8 * cwTotal
    ensures fresh(out) && out.Length == cwTotal
    ensures forall i :: 0 <= i < out.Length ==> out[i] < 256
    ensures BitsAt(out[..], 0, |bits|) == bits && PadsFrom(out[..], |bits| / 8)
  {
    hide BitsOf, StreamBit, Packed;
    out := new nat[cwTotal](_ => 0);
    PackBytes(bits, out);
    ghost var packed := out[..];
    PadRest(out, |bits| / 8);
    PackedStill(packed, out[..], bits, |bits| / 8);
    PackedCarries(out[..], bits);
  }

  method PackBytes(bits: seq<bool>, out: array<nat>)
    requires |bits| % 8 == 0 && |bits| <= 8 * out.Length && Octets(out[..])
    modifies out
    ensures Octets(out[..]) && Packed(out[..], bits, |bits| / 8)
  {
    hide BitsOf;
    var i := 0;
    while i < |bits|
      invariant i % 8 == 0 && 0 <= i <= |bits| && Octets(out[..]) && Packed(out[..], bits, i / 8)
    {
      ghost var was := out[..];
      out[i / 8] := PackByte(bits, i);
      PackedMore(was, out[..], bits, i / 8);
      i := i + 8;
    }
  }

  lemma PackedMore(out: seq<nat>, out': seq<nat>, bits: seq<bool>, n: nat)
    requires Packed(out, bits, n) && n < |out| == |out'| && 8 * n + 8 <= |bits| && out' == out[n := out'[n]]
    requires BitsOf(out'[n], 8) == bits[8 * n..8 * n + 8]
    ensures Packed(out', bits, n + 1)
  {
    hide BitsOf;
  }

  lemma PackedStill(out: seq<nat>, out': seq<nat>, bits: seq<bool>, n: nat)
    requires Packed(out, bits, n) && n <= |out'| && out'[..n] == out[..n]
    ensures Packed(out', bits, n)
  {
    hide BitsOf;
    forall k | 0 <= k < n ensures out'[k] == out[k] {
      assert out'[..n][k] == out[..n][k];
    }
  }

  method PadRest(out: array<nat>, packed: nat)
    requires packed <= out.Length && Octets(out[..])
    modifies out
    ensures Octets(out[..]) && out[..packed] == old(out[..packed]) && PadsFrom(out[..], packed)
  {
    var k, alt := packed, 0;
    while k < out.Length
      invariant packed <= k <= out.Length && Octets(out[..]) && out[..packed] == old(out[..packed])
      invariant alt == (k - packed) % 2
      invariant forall j :: packed <= j < k ==> out[j] == if (j - packed) % 2 == 0 then 0xec else 0x11
    {
      out[k] := if alt == 0 then 0xec else 0x11;
      k := k + 1;
      alt := 1 - alt;
    }
  }

  /** Zero bits up to the next byte, none at a byte's end. */
  method PadToByte(bits: seq<bool>) returns (r: seq<bool>)
    ensures bits <= r && |r| == (|bits| + 7) / 8 * 8 && forall k :: |bits| <= k < |r| ==> !r[k]
  {
    r := bits;
    while |r| % 8 != 0
      invariant bits <= r && |r| <= (|bits| + 7) / 8 * 8 && forall k :: |bits| <= k < |r| ==> !r[k]
      decreases (|bits| + 7) / 8 * 8 - |r|
    {
      r := r + [false];
    }
  }

  /** The data codewords of a payload: segment, terminator, alternating pad bytes. */
  method BuildCodewords(payload: seq<nat>, v: nat) returns (out: array<nat>)
    requires 1 <= v <= 10 && |payload| <= Capacity(v) && forall i :: 0 <= i < |payload| ==> payload[i] < 256
    ensures fresh(out) && out.Length == DataCodewords(v)
    ensures forall i :: 0 <= i < out.Length ==> out[i] < 256
    ensures Carries(out[..], payload, v) && PadsFrom(out[..], |SegmentBits(payload, v)| / 8)
  {
    hide DataCodewords, BitsOf, StreamBit, PadsFrom;
    var cwTotal := DataCodewords(v);
    var bits: seq<bool> := [];
    bits := Push(bits, 4, 4);
    bits := Push(bits, |payload|, CountWidth(BYTE, v));
    ghost var header := bits;
    assert payload[..0] == [];
    for k := 0 to |payload|
      invariant bits == header + BytesBits(payload[..k])
    {
      assert payload[..k + 1][..k] == payload[..k];
      bits := Push(bits, payload[k], 8);
    }
    assert payload[..|payload|] == payload;
    CapacityFits(v);
    var capacityBits := cwTotal * 8;
    var room := capacityBits - |bits|;
    bits := Push(bits, 0, if room < 4 then room else 4);
    ghost var segment := SegmentBits(payload, v);
    assert bits == segment;
    bits := PadToByte(bits);
    assert bits == segment;
    out := PackAndPad(bits, cwTotal);
  }

  lemma CapacityFits(v: nat)
    requires 1 <= v <= 10
    ensures 8 + CountWidth(BYTE, v) + 8 * Capacity(v) <= 8 * DataCodewords(v)
  {
  }

  lemma PackedCarries(out: seq<nat>, bits: seq<bool>)
    requires |bits| % 8 == 0 && Packed(out, bits, |bits| / 8)
    ensures BitsAt(out, 0, |bits|) == bits
  {
    hide BitsOf;
    forall i | 0 <= i < |bits| ensures StreamBit(out, i) == bits[i] {
      assert i == 8 * (i / 8) + i % 8;
      assert BitAt(out[i / 8], i % 8) == bits[8 * (i / 8)..8 * (i / 8) + 8][i % 8];
    }
  }

  // ---- decoder --------------------------------------------------------------------------------------------------

  /** The corrected data and a bit cursor. */
  class DataStream {
    var data: array<nat>
    var dataBits: nat
    var ptr: nat

    constructor (d: array<nat>, bits: nat)
      ensures data == d && dataBits == bits && ptr == 0
    {
      data, dataBits, ptr := d, bits, 0;
    }

    ghost predicate Valid()
      reads this
    {
      ptr <= dataBits <= 8 * data.Length
    }

    function Remaining(): nat
      requires Valid()
      reads this
    {
      dataBits - ptr
    }

    /** Up to len bits as a number, most significant first. */
    method TakeBits(len: nat) returns (ret: nat)
      requires Valid()
      modifies this`ptr
      ensures Valid()
      ensures var n := if len <= old(Remaining()) then len else old(Remaining());
        ptr == old(ptr) + n && ret == NumberAt(data[..], old(ptr), n)
    {
      hide BitsOf, StreamBit, NumberAt, BitAt;
      ghost var start := ptr;
      NoBitsYet(data[..], start);
      var left := len;
      ret := 0;
      while left > 0 && ptr < dataBits
        invariant start <= ptr <= dataBits && Valid() && ptr - start == len - left
        invariant ret == NumberAt(data[..], start, ptr - start)
      {
        var b := data[ptr / 8];
        var bitpos := ptr % 8;
        ShiftTest(b, bitpos);
        NextBit(data[..], start, ptr - start);
        ret := 2 * ret + if b * Pow2(bitpos) / 128 % 2 == 1 then 1 else 0;
        ptr := ptr + 1;
        left := left - 1;
      }
    }
  }

  lemma NextBit(bytes: seq<nat>, from: nat, n: nat)
    requires from + n < 8 * |bytes|
    ensures bytes[(from + n) / 8] >= 0 && StreamBit(bytes, from + n) == BitAt(bytes[(from + n) / 8], (from + n) % 8)
    ensures NumberAt(bytes, from, n + 1) == 2 * NumberAt(bytes, from, n) + if StreamBit(bytes, from + n) then 1 else 0
  {
    assert BitsAt(bytes, from, n + 1)[..n] == BitsAt(bytes, from, n);
  }

  lemma NoBitsYet(bytes: seq<nat>, from: nat)
    requires from <= 8 * |bytes|
    ensures NumberAt(bytes, from, 0) == 0
  {
  }

  /** (b << k) & 0x80 tests bit k from the top. */
  lemma ShiftTest(b: nat, k: nat)
    requires k < 8
    ensures b * Pow2(k) / 128 % 2 == 1 <==> BitAt(b, k)
  {
    hide BitsOf;
    BitsOfAt(b, 8, k);
    PowersOfTwo();
    hide Pow2;
    ShiftCancel(b, k, Pow2(k), Pow2(7 - k));
  }

  lemma ShiftCancel(b: nat, k: nat, up: nat, down: nat)
    requires k < 8 && up == [1, 2, 4, 8, 16, 32, 64, 128][k] && down == [128, 64, 32, 16, 8, 4, 2, 1][k]
    ensures b * up / 128 == b / down
  {
  }

  // ---- a byte segment, field by field ----------------------------------------------------------------------------

  lemma {:induction false} BytesBitsAt(p: seq<nat>, i: nat)
    requires i < |p|
    ensures BytesBits(p)[8 * i..8 * i + 8] == BitsOf(p[i], 8)
  {
    hide BitsOf;
    var n := |p| - 1;
    var init, last := BytesBits(p[..n]), BitsOf(p[n], 8);
    assert BytesBits(p) == init + last;
    if i < n {
      BytesBitsAt(p[..n], i);
      assert (init + last)[8 * i..8 * i + 8] == init[8 * i..8 * i + 8];
    } else {
      assert (init + last)[8 * n..8 * n + 8] == last;
    }
  }

  /** The stream begins with the segment for `sent`; behind it there is a terminator, or no room for one. */
  ghost predicate BeginsWith(bytes: seq<nat>, dataBits: nat, sent: seq<nat>, v: nat) {
    && Begins(bytes, dataBits, HeadBits(BYTE, |sent|, v, BytesBits(sent)))
    && |sent| + 1 <= MAX_PAYLOAD && |sent| < Pow2(CountWidth(BYTE, v)) && forall i :: 0 <= i < |sent| ==> sent[i] < 256
  }

  lemma BytesRead(bytes: seq<nat>, from: nat, sent: seq<nat>)
    requires from + 8 * |sent| <= 8 * |bytes| && BitsAt(bytes, from, 8 * |sent|) == BytesBits(sent)
    requires forall i :: 0 <= i < |sent| ==> sent[i] < 256
    ensures BytesAt(bytes, from, |sent|) == sent
  {
    hide *;
    var read := BytesAt(bytes, from, |sent|);
    forall i | 0 <= i < |sent| ensures read[i] == sent[i] {
      ByteRead(bytes, from, sent, i);
    }
  }

  lemma ByteRead(bytes: seq<nat>, from: nat, sent: seq<nat>, i: nat)
    requires from + 8 * |sent| <= 8 * |bytes| && BitsAt(bytes, from, 8 * |sent|) == BytesBits(sent)
    requires i < |sent| && sent[i] < 256
    ensures NumberAt(bytes, from + 8 * i, 8) == sent[i]
  {
    hide BitsAt, BitsOf, BytesBits, NumberAt;
    PowersOfTwo();
    hide Pow2;
    BytesBitsAt(sent, i);
    FieldAt(bytes, from, BytesBits(sent), 8 * i, sent[i], 8);
  }

  /** A stream that begins with a segment says exactly what was sent, in byte mode. */
  lemma SegmentParses(bytes: seq<nat>, dataBits: nat, sent: seq<nat>, v: nat)
    requires BeginsWith(bytes, dataBits, sent, v)
    ensures var r := Parse(bytes, dataBits, v, NOTHING); r.status == Success && r.payload == sent && r.dataType == BYTE
  {
    hide Begins, BitsAt, NumberAt, BytesAt, BytesBits, Parse, Pow2, Count;
    HeadRead(bytes, dataBits, BYTE, |sent|, v, BytesBits(sent));
    BytesRead(bytes, 4 + CountWidth(BYTE, v), sent);
    assert [] + sent == sent;
    OneSegment(bytes, dataBits, HeadBits(BYTE, |sent|, v, BytesBits(sent)), BYTE, v, sent, 0);
  }

  // ---- the decoder's functions -----------------------------------------------------------------------------------

  /** What is decoded so far: the payload buffer, its fill, the highest data type seen, and the last ECI. */
  class Decoded {
    const payload: array<nat>
    var payloadLen: nat
    var dataType: nat
    var eci: nat

    constructor (buffer: array<nat>)
      ensures payload == buffer && payloadLen == 0 && dataType == 0 && eci == 0
    {
      payload, payloadLen, dataType, eci := buffer, 0, 0, 0;
    }

    ghost predicate Valid()
      reads this
    {
      payload.Length == MAX_PAYLOAD && payloadLen < MAX_PAYLOAD
    }
  }

  /** The state of a decoding run. */
  ghost function StateOf(status: Status, data: Decoded, ds: DataStream): Parsed
    requires data.Valid()
    reads data, data.payload, ds
  {
    Parsed(status, data.payload[..data.payloadLen], data.dataType, ds.ptr, data.eci)
  }

  /** One more character at the low end. */
  lemma CharsNext(alphabet: string, t: nat, k: nat)
    requires alphabet != []
    ensures Chars(alphabet, t, k + 1) == Chars(alphabet, t / |alphabet|, k) + [alphabet[t % |alphabet|] as int]
  {
  }

  lemma NoChars(alphabet: string, t: nat)
    requires alphabet != []
    ensures Chars(alphabet, t, 0) == []
  {
  }

  /** One tuple of digits; false if the stream ends within it. */
  method NumericTuple(data: Decoded, ds: DataStream, bits: nat, digits: nat) returns (ok: bool)
    requires data.Valid() && ds.Valid() && data.payload != ds.data && data.payloadLen + digits < MAX_PAYLOAD
    modifies data`payloadLen, data.payload, ds`ptr
    ensures data.Valid() && ds.Valid() && ok == (old(ds.Remaining()) >= bits)
    ensures StateOf(Success, data, ds) ==
      if ok then OneTuple(ds.data[..], DIGITS, digits, bits, old(StateOf(Success, data, ds)))
      else old(StateOf(Success, data, ds))
  {
    hide NumberAt, Chars;
    if ds.Remaining() < bits {
      return false;
    }
    var tuple := ds.TakeBits(bits);
    ghost var all, before, n := Chars(DIGITS, tuple, digits), data.payload[..data.payloadLen], data.payloadLen;
    for i := digits downto 0
      modifies data.payload
      invariant data.payload[..n] == before && Chars(DIGITS, tuple, i) + data.payload[n + i..n + digits] == all
    {
      ghost var done := data.payload[n + i + 1..n + digits];
      CharsNext(DIGITS, tuple, i);
      DigitIs(tuple % 10);
      data.payload[data.payloadLen + i] := tuple % 10 + 0x30;
      assert data.payload[n + i..n + digits] == [tuple % 10 + 0x30] + done;
      tuple := tuple / 10;
    }
    NoChars(DIGITS, tuple);
    data.payloadLen := data.payloadLen + digits;
    assert data.payload[..data.payloadLen] == before + all;
    return true;
  }

  lemma DigitIs(d: nat)
    requires d < 10
    ensures |DIGITS| == 10 && DIGITS[d] as int == d + 0x30
  {
  }

  /** One tuple of characters of the alphanumeric set. */
  method AlphaTuple(data: Decoded, ds: DataStream, bits: nat, digits: nat) returns (ok: bool)
    requires data.Valid() && ds.Valid() && data.payload != ds.data && data.payloadLen + digits < MAX_PAYLOAD
    modifies data`payloadLen, data.payload, ds`ptr
    ensures data.Valid() && ds.Valid() && ok == (old(ds.Remaining()) >= bits)
    ensures StateOf(Success, data, ds) ==
      if ok then OneTuple(ds.data[..], ALPHANUMERIC, digits, bits, old(StateOf(Success, data, ds)))
      else old(StateOf(Success, data, ds))
  {
    hide NumberAt, Chars;
    if ds.Remaining() < bits {
      return false;
    }
    var tuple := ds.TakeBits(bits);
    ghost var all, before, n := Chars(ALPHANUMERIC, tuple, digits), data.payload[..data.payloadLen], data.payloadLen;
    for i := 0 to digits
      modifies data.payload
      invariant data.payload[..n] == before
      invariant Chars(ALPHANUMERIC, tuple, digits - i) + data.payload[n + (digits - i)..n + digits] == all
    {
      ghost var j := digits - i - 1;
      ghost var done := data.payload[n + j + 1..n + digits];
      CharsNext(ALPHANUMERIC, tuple, j);
      var c := ALPHANUMERIC[tuple % 45] as int;
      data.payload[data.payloadLen + digits - i - 1] := c;
      assert data.payload[n + j..n + digits] == [c] + done;
      tuple := tuple / 45;
    }
    NoChars(ALPHANUMERIC, tuple);
    data.payloadLen := data.payloadLen + digits;
    assert data.payload[..data.payloadLen] == before + all;
    return true;
  }

  /** A tuple of k characters in n bits is next, or the stream ends within it. */
  lemma TupleTaken(bytes: seq<nat>, dataBits: nat, alphabet: string, most: nat, width: nat, count: nat, k: nat, n: nat, r: Parsed)
    requires r.ptr <= dataBits <= 8 * |bytes| && |r.payload| + count < MAX_PAYLOAD && alphabet != []
    requires 0 < k <= count && k == (if count < most then count else most) && n == TupleWidth(width, k)
    ensures dataBits - r.ptr < n ==>
      Tuples(bytes, dataBits, alphabet, most, width, count, r) == r.(status := DataUnderflow)
    ensures dataBits - r.ptr >= n ==>
      Tuples(bytes, dataBits, alphabet, most, width, count, r)
        == Tuples(bytes, dataBits, alphabet, most, width, count - k, OneTuple(bytes, alphabet, k, n, r))
  {
    hide NumberAt, Chars, TupleWidth;
  }

  lemma TuplesDone(bytes: seq<nat>, dataBits: nat, alphabet: string, most: nat, width: nat, r: Parsed)
    requires r.ptr <= dataBits <= 8 * |bytes| && |r.payload| < MAX_PAYLOAD && alphabet != [] && most > 0
    ensures Tuples(bytes, dataBits, alphabet, most, width, 0, r) == r.(status := Success)
  {
  }

  /** Appends one numeric segment; where the stream ends within it, the tuples before stay. */
  method DecodeNumeric(v: nat, data: Decoded, ds: DataStream) returns (s: Status)
    requires data.Valid() && ds.Valid() && data.payload != ds.data
    modifies data`payloadLen, data.payload, ds`ptr
    ensures data.Valid() && ds.Valid()
    ensures StateOf(s, data, ds) == TextSegment(ds.data[..], ds.dataBits, NUMERIC, v, old(StateOf(Success, data, ds)))
  {
    hide NumberAt, Tuples, OneTuple;
    ghost var bytes := ds.data[..];
    var bits := 14;
    if v < 10 {
      bits := 10;
    } else if v < 27 {
      bits := 12;
    }
    var count := ds.TakeBits(bits);
    if data.payloadLen + count + 1 > MAX_PAYLOAD {
      return DataOverflow;
    }
    s := DecodeNumericTuples(data, ds, count);
  }

  method DecodeNumericTuples(data: Decoded, ds: DataStream, count0: nat) returns (s: Status)
    requires data.Valid() && ds.Valid() && data.payload != ds.data && data.payloadLen + count0 < MAX_PAYLOAD
    modifies data`payloadLen, data.payload, ds`ptr
    ensures data.Valid() && ds.Valid()
    ensures StateOf(s, data, ds) == Tuples(ds.data[..], ds.dataBits, DIGITS, 3, 3, count0, old(StateOf(Success, data, ds)))
  {
    hide NumberAt, Tuples, OneTuple;
    ghost var bytes := ds.data[..];
    ghost var end := Tuples(bytes, ds.dataBits, DIGITS, 3, 3, count0, StateOf(Success, data, ds));
    var count := count0;
    while count >= 3
      invariant data.Valid() && ds.Valid() && ds.data[..] == bytes && data.payloadLen + count < MAX_PAYLOAD
      invariant end == Tuples(bytes, ds.dataBits, DIGITS, 3, 3, count, StateOf(Success, data, ds))
    {
      TupleTaken(bytes, ds.dataBits, DIGITS, 3, 3, count, 3, 10, StateOf(Success, data, ds));
      var ok := NumericTuple(data, ds, 10, 3);
      if !ok {
        return DataUnderflow;
      }
      count := count - 3;
    }
    if count >= 2 {
      TupleTaken(bytes, ds.dataBits, DIGITS, 3, 3, count, 2, 7, StateOf(Success, data, ds));
      var ok := NumericTuple(data, ds, 7, 2);
      if !ok {
        return DataUnderflow;
      }
      count := count - 2;
    }
    if count >= 1 {
      TupleTaken(bytes, ds.dataBits, DIGITS, 3, 3, count, 1, 4, StateOf(Success, data, ds));
      var ok := NumericTuple(data, ds, 4, 1);
      if !ok {
        return DataUnderflow;
      }
      count := count - 1;
    }
    TuplesDone(bytes, ds.dataBits, DIGITS, 3, 3, StateOf(Success, data, ds));
    return Success;
  }

  /** Appends one alphanumeric segment. */
  method DecodeAlpha(v: nat, data: Decoded, ds: DataStream) returns (s: Status)
    requires data.Valid() && ds.Valid() && data.payload != ds.data
    modifies data`payloadLen, data.payload, ds`ptr
    ensures data.Valid() && ds.Valid()
    ensures StateOf(s, data, ds) == TextSegment(ds.data[..], ds.dataBits, ALPHA, v, old(StateOf(Success, data, ds)))
  {
    hide NumberAt, Tuples, OneTuple;
    ghost var bytes := ds.data[..];
    var bits := 13;
    if v < 10 {
      bits := 9;
    } else if v < 27 {
      bits := 11;
    }
    var count := ds.TakeBits(bits);
    if data.payloadLen + count + 1 > MAX_PAYLOAD {
      return DataOverflow;
    }
    s := DecodeAlphaTuples(data, ds, count);
  }

  method DecodeAlphaTuples(data: Decoded, ds: DataStream, count0: nat) returns (s: Status)
    requires data.Valid() && ds.Valid() && data.payload != ds.data && data.payloadLen + count0 < MAX_PAYLOAD
    modifies data`payloadLen, data.payload, ds`ptr
    ensures data.Valid() && ds.Valid()
    ensures StateOf(s, data, ds) == Tuples(ds.data[..], ds.dataBits, ALPHANUMERIC, 2, 5, count0, old(StateOf(Success, data, ds)))
  {
    hide NumberAt, Tuples, OneTuple;
    ghost var bytes := ds.data[..];
    ghost var end := Tuples(bytes, ds.dataBits, ALPHANUMERIC, 2, 5, count0, StateOf(Success, data, ds));
    var count := count0;
    while count >= 2
      invariant data.Valid() && ds.Valid() && ds.data[..] == bytes && data.payloadLen + count < MAX_PAYLOAD
      invariant end == Tuples(bytes, ds.dataBits, ALPHANUMERIC, 2, 5, count, StateOf(Success, data, ds))
    {
      TupleTaken(bytes, ds.dataBits, ALPHANUMERIC, 2, 5, count, 2, 11, StateOf(Success, data, ds));
      var ok := AlphaTuple(data, ds, 11, 2);
      if !ok {
        return DataUnderflow;
      }
      count := count - 2;
    }
    if count >= 1 {
      TupleTaken(bytes, ds.dataBits, ALPHANUMERIC, 2, 5, count, 1, 6, StateOf(Success, data, ds));
      var ok := AlphaTuple(data, ds, 6, 1);
      if !ok {
        return DataUnderflow;
      }
      count := count - 1;
    }
    TuplesDone(bytes, ds.dataBits, ALPHANUMERIC, 2, 5, StateOf(Success, data, ds));
    return Success;
  }

  /** Appends one byte-mode segment to the payload; on an error the payload stays as it was. */
  method DecodeByte(v: nat, data: Decoded, ds: DataStream) returns (s: Status)
    requires data.Valid() && ds.Valid() && data.payload != ds.data
    modifies data`payloadLen, data.payload, ds`ptr
    ensures data.Valid() && ds.Valid()
    ensures StateOf(s, data, ds) == ByteSegment(ds.data[..], ds.dataBits, v, old(StateOf(Success, data, ds)))
  {
    hide NumberAt, BytesAt;
    var bits := 16;
    if v < 10 {
      bits := 8;
    }
    var count := ds.TakeBits(bits);
    if data.payloadLen + count + 1 > MAX_PAYLOAD {
      return DataOverflow;
    }
    if ds.Remaining() < count * 8 {
      return DataUnderflow;
    }
    ReadBytes(data, ds, count);
    return Success;
  }

  method ReadBytes(data: Decoded, ds: DataStream, count: nat)
    requires data.Valid() && ds.Valid() && data.payload != ds.data
    requires data.payloadLen + count + 1 <= MAX_PAYLOAD && ds.ptr + 8 * count <= ds.dataBits
    modifies data`payloadLen, data.payload, ds`ptr
    ensures data.Valid() && ds.Valid() && ds.ptr == old(ds.ptr) + 8 * count
    ensures data.payload[..data.payloadLen] == old(data.payload[..data.payloadLen]) + BytesAt(ds.data[..], old(ds.ptr), count)
  {
    hide NumberAt, BytesAt;
    ghost var bytes, before, from := ds.data[..], data.payload[..data.payloadLen], ds.ptr;
    NoBytes(bytes, from);
    for i := 0 to count
      invariant data.Valid() && ds.Valid() && data.payloadLen == |before| + i
      invariant ds.data[..] == bytes && ds.ptr == from + 8 * i
      invariant data.payload[..data.payloadLen] == before + BytesAt(bytes, from, i)
    {
      ghost var done := data.payload[..data.payloadLen];
      var b := ds.TakeBits(8);
      data.payload[data.payloadLen] := b;
      data.payloadLen := data.payloadLen + 1;
      assert data.payload[..data.payloadLen] == done + [b];
      OneMoreByte(bytes, from, i);
    }
  }

  lemma NoBytes(bytes: seq<nat>, from: nat)
    requires from <= 8 * |bytes|
    ensures BytesAt(bytes, from, 0) == [] && KanjiAt(bytes, from, 0) == []
  {
  }

  lemma OneMoreByte(bytes: seq<nat>, from: nat, i: nat)
    requires from + 8 * (i + 1) <= 8 * |bytes|
    ensures BytesAt(bytes, from, i + 1) == BytesAt(bytes, from, i) + [NumberAt(bytes, from + 8 * i, 8)]
  {
  }

  /** Appends one kanji segment, two bytes a character. */
  method DecodeKanji(v: nat, data: Decoded, ds: DataStream) returns (s: Status)
    requires data.Valid() && ds.Valid() && data.payload != ds.data
    modifies data`payloadLen, data.payload, ds`ptr
    ensures data.Valid() && ds.Valid()
    ensures StateOf(s, data, ds) == KanjiSegment(ds.data[..], ds.dataBits, v, old(StateOf(Success, data, ds)))
  {
    hide NumberAt, KanjiAt;
    var bits := 12;
    if v < 10 {
      bits := 8;
    } else if v < 27 {
      bits := 10;
    }
    var count := ds.TakeBits(bits);
    if data.payloadLen + count * 2 + 1 > MAX_PAYLOAD {
      return DataOverflow;
    }
    if ds.Remaining() < count * 13 {
      return DataUnderflow;
    }
    ReadKanji(data, ds, count);
    return Success;
  }

  method ReadKanji(data: Decoded, ds: DataStream, count: nat)
    requires data.Valid() && ds.Valid() && data.payload != ds.data
    requires data.payloadLen + count * 2 + 1 <= MAX_PAYLOAD && ds.ptr + 13 * count <= ds.dataBits
    modifies data`payloadLen, data.payload, ds`ptr
    ensures data.Valid() && ds.Valid() && ds.ptr == old(ds.ptr) + 13 * count
    ensures data.payload[..data.payloadLen] == old(data.payload[..data.payloadLen]) + KanjiAt(ds.data[..], old(ds.ptr), count)
  {
    hide KanjiAt, NumberAt, Sjis;
    ghost var bytes, before, from := ds.data[..], data.payload[..data.payloadLen], ds.ptr;
    NoBytes(bytes, from);
    for i := 0 to count
      invariant data.Valid() && ds.Valid() && data.payloadLen == |before| + 2 * i
      invariant ds.data[..] == bytes && ds.ptr == from + 13 * i
      invariant data.payload[..data.payloadLen] == before + KanjiAt(bytes, from, i)
    {
      ghost var done := data.payload[..data.payloadLen];
      var d := ds.TakeBits(13);
      var high, low := ShiftJis(d);
      data.payload[data.payloadLen] := high;
      data.payload[data.payloadLen + 1] := low;
      data.payloadLen := data.payloadLen + 2;
      assert data.payload[..data.payloadLen] == done + [high, low];
      OneMoreKanji(bytes, from, i, d);
    }
  }

  /** The two bytes of a character. */
  method ShiftJis(d: nat) returns (high: nat, low: nat)
    ensures high == Sjis(d) / 256 % 256 && low == Sjis(d) % 256
  {
    var msB, lsB := d / 0xc0, d % 0xc0;
    var intermediate := msB * 256 + lsB;
    var sjw := if intermediate + 0x8140 <= 0x9ffc then intermediate + 0x8140 else intermediate + 0xc140;
    return sjw / 256 % 256, sjw % 256;
  }

  lemma OneMoreKanji(bytes: seq<nat>, from: nat, i: nat, d: nat)
    requires from + 13 * (i + 1) <= 8 * |bytes| && d == NumberAt(bytes, from + 13 * i, 13)
    ensures KanjiAt(bytes, from, i + 1) == KanjiAt(bytes, from, i) + [Sjis(d) / 256 % 256, Sjis(d) % 256]
  {
    hide Sjis, NumberAt;
  }

  /** Reads the ECI of what follows; the payload is not touched. */
  method DecodeEci(data: Decoded, ds: DataStream) returns (s: Status)
    requires data.Valid() && ds.Valid()
    modifies data`eci, ds`ptr
    ensures data.Valid() && ds.Valid()
    ensures StateOf(s, data, ds) == EciSegment(ds.data[..], ds.dataBits, old(StateOf(Success, data, ds)))
  {
    hide NumberAt;
    if ds.Remaining() < 8 {
      return DataUnderflow;
    }
    var e := ds.TakeBits(8);
    data.eci := e;
    if data.eci / 64 % 4 == 2 {
      if ds.Remaining() < 8 {
        return DataUnderflow;
      }
      var more := ds.TakeBits(8);
      data.eci := data.eci * 256 + more;
    } else if data.eci / 32 % 8 == 6 {
      if ds.Remaining() < 16 {
        return DataUnderflow;
      }
      var more := ds.TakeBits(16);
      data.eci := data.eci * 65536 + more;
    }
    return Success;
  }

  /** The segment of a known mode. */
  method DecodeSegment(mode: nat, v: nat, data: Decoded, ds: DataStream) returns (s: Status)
    requires data.Valid() && ds.Valid() && data.payload != ds.data && Known(mode)
    modifies data, data.payload, ds`ptr
    ensures data.Valid() && ds.Valid()
    ensures StateOf(s, data, ds) == Segment(ds.data[..], ds.dataBits, mode, v, old(StateOf(Success, data, ds)))
  {
    hide TextSegment, ByteSegment, KanjiSegment, EciSegment;
    match mode {
      case 1 => s := DecodeNumeric(v, data, ds);
      case 2 => s := DecodeAlpha(v, data, ds);
      case 4 => s := DecodeByte(v, data, ds);
      case 8 => s := DecodeKanji(v, data, ds);
      case _ => s := DecodeEci(data, ds);
    }
  }

  /** Segments up to a terminator or the end of the data; then a closing zero byte. */
  method DecodePayload(v: nat, data: Decoded, ds: DataStream) returns (s: Status)
    requires data.Valid() && ds.Valid() && data.payload != ds.data
    modifies data, data.payload, ds`ptr
    ensures data.Valid() && ds.Valid()
    ensures StateOf(s, data, ds) == Parse(ds.data[..], ds.dataBits, v, old(StateOf(Success, data, ds)))
    ensures s == Success ==> data.payload[data.payloadLen] == 0
  {
    hide NumberAt, Segment;
    ghost var bytes := ds.data[..];
    ghost var start := StateOf(Success, data, ds);
    while ds.Remaining() >= 4
      invariant data.Valid() && ds.Valid() && ds.data[..] == bytes
      invariant Parse(bytes, ds.dataBits, v, StateOf(Success, data, ds)) == Parse(bytes, ds.dataBits, v, start)
      decreases ds.dataBits - ds.ptr
    {
      var mode := ds.TakeBits(4);
      if !Known(mode) {
        break;
      }
      s := DecodeSegment(mode, v, data, ds);
      if s != Success {
        return s;
      }
      if mode != ECI && mode > data.dataType {
        data.dataType := mode;
      }
    }
    data.payload[data.payloadLen] := 0;
    return Success;
  }
}
