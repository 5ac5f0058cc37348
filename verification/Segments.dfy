/** What a bit stream says: segments of every mode, one after the other. */
module Segments {
  import opened Bits
  import opened BitStream
  import opened Codestream

  /** n bits of a byte string from bit `from` on. */
  function BitsAt(bytes: seq<nat>, from: nat, n: nat): (b: seq<bool>)
    requires from + n <= 8 * |bytes|
    ensures |b| == n && forall k :: 0 <= k < n ==> b[k] == StreamBit(bytes, from + k)
  {
    seq(n, k requires 0 <= k < n => StreamBit(bytes, from + k))
  }

  /** The same as a number. */
  function NumberAt(bytes: seq<nat>, from: nat, n: nat): nat
    requires from + n <= 8 * |bytes|
  {
    Value(BitsAt(bytes, from, n))
  }

  /** The decoder's result codes that this model reaches. */
  datatype Status = Success | InvalidGridSize | InvalidVersion | FormatEcc | DataEcc | DataOverflow | DataUnderflow

  /** A result, the payload so far, the highest data type seen, where the cursor stands, and the last ECI read. */
  datatype Parsed = Parsed(status: Status, payload: seq<nat>, dataType: nat, ptr: nat, eci: nat)

  const NOTHING := Parsed(Success, [], 0, 0, 0)

  const NUMERIC := 1
  const ALPHA := 2
  const BYTE := 4
  const ECI := 7
  const KANJI := 8

  /** Reads of more than what is left stop at the end. */
  function Taken(dataBits: nat, ptr: nat, len: nat): (n: nat)
    requires ptr <= dataBits
    ensures n <= len && ptr + n <= dataBits
  {
    if len <= dataBits - ptr then len else dataBits - ptr
  }

  // ---- numeric and alphanumeric ----------------------------------------------------------------------------------------

  const DIGITS := "0123456789"
  const ALPHANUMERIC := "0123456789ABCDEFGHIJKLMNOPQRSTUVWXYZ $%*+-./:"

  /** The k low places of t in base |alphabet|, the highest first, as characters. */
  function Chars(alphabet: string, t: nat, k: nat): (c: seq<nat>)
    requires alphabet != []
    ensures |c| == k
    decreases k
  {
    if k == 0 then [] else Chars(alphabet, t / |alphabet|, k - 1) + [alphabet[t % |alphabet|] as int]
  }

  /** Bits of a tuple of k characters. */
  function TupleWidth(width: nat, k: nat): nat { width * k + 1 }

  /** Tuples of at most `most` characters. */
  function Tuples(bytes: seq<nat>, dataBits: nat, alphabet: string, most: nat, width: nat, count: nat, r: Parsed): (r': Parsed)
    requires r.ptr <= dataBits <= 8 * |bytes| && |r.payload| + count < MAX_PAYLOAD && alphabet != [] && most > 0
    ensures r.ptr <= r'.ptr <= dataBits && |r'.payload| < MAX_PAYLOAD && r'.dataType == r.dataType && r'.eci == r.eci
    ensures r'.status in {Success, DataUnderflow}
    decreases count
  {
    if count == 0 then r.(status := Success)
    else
      var k := if count < most then count else most;
      var n := TupleWidth(width, k);
      if dataBits - r.ptr < n then r.(status := DataUnderflow)
      else Tuples(bytes, dataBits, alphabet, most, width, count - k, OneTuple(bytes, alphabet, k, n, r))
  }

  function OneTuple(bytes: seq<nat>, alphabet: string, k: nat, n: nat, r: Parsed): (r': Parsed)
    requires r.ptr + n <= 8 * |bytes| && alphabet != []
    ensures |r'.payload| == |r.payload| + k && r'.ptr == r.ptr + n && r'.dataType == r.dataType && r'.eci == r.eci
  {
    r.(payload := r.payload + Chars(alphabet, NumberAt(bytes, r.ptr, n), k), ptr := r.ptr + n)
  }

  /** Width of the character count in each mode. */
  function CountWidth(mode: nat, v: nat): nat {
    var least := if mode == NUMERIC then 10 else if mode == ALPHA then 9 else 8;
    if v < 10 then least else if mode == BYTE then 16 else if v < 27 then least + 2 else least + 4
  }

  /** The count in front of a segment, the cursor behind it. */
  function Count(bytes: seq<nat>, dataBits: nat, mode: nat, v: nat, ptr: nat): (c: (nat, nat))
    requires ptr <= dataBits <= 8 * |bytes|
    ensures ptr <= c.1 <= dataBits
  {
    var n := Taken(dataBits, ptr, CountWidth(mode, v));
    (NumberAt(bytes, ptr, n), ptr + n)
  }

  function TextSegment(bytes: seq<nat>, dataBits: nat, mode: nat, v: nat, r: Parsed): (r': Parsed)
    requires r.ptr <= dataBits <= 8 * |bytes| && |r.payload| < MAX_PAYLOAD
    ensures r.ptr <= r'.ptr <= dataBits && |r'.payload| < MAX_PAYLOAD && r'.dataType == r.dataType && r'.eci == r.eci
  {
    var (count, from) := Count(bytes, dataBits, mode, v, r.ptr);
    if |r.payload| + count + 1 > MAX_PAYLOAD then r.(status := DataOverflow, ptr := from)
    else if mode == NUMERIC then Tuples(bytes, dataBits, DIGITS, 3, 3, count, r.(ptr := from))
    else Tuples(bytes, dataBits, ALPHANUMERIC, 2, 5, count, r.(ptr := from))
  }

  // ---- bytes ------------------------------------------------------------------------------------------------------------

  function BytesAt(bytes: seq<nat>, from: nat, count: nat): (b: seq<nat>)
    requires from + 8 * count <= 8 * |bytes|
    ensures |b| == count && forall i :: 0 <= i < count ==> b[i] == NumberAt(bytes, from + 8 * i, 8)
  {
    seq(count, i requires 0 <= i < count => NumberAt(bytes, from + 8 * i, 8))
  }

  function ByteSegment(bytes: seq<nat>, dataBits: nat, v: nat, r: Parsed): (r': Parsed)
    requires r.ptr <= dataBits <= 8 * |bytes| && |r.payload| < MAX_PAYLOAD
    ensures r.ptr <= r'.ptr <= dataBits && |r'.payload| < MAX_PAYLOAD && r'.dataType == r.dataType && r'.eci == r.eci
  {
    var (count, from) := Count(bytes, dataBits, BYTE, v, r.ptr);
    if |r.payload| + count + 1 > MAX_PAYLOAD then r.(status := DataOverflow, ptr := from)
    else if dataBits - from < 8 * count then r.(status := DataUnderflow, ptr := from)
    else r.(status := Success, payload := r.payload + BytesAt(bytes, from, count), ptr := from + 8 * count)
  }

  // ---- kanji ---------------------------------------------------------------------------------------------------------------

  /** Thirteen bits as a Shift JIS character. */
  function Sjis(d: nat): nat {
    var w := d / 0xc0 * 256 + d % 0xc0;
    if w + 0x8140 <= 0x9ffc then w + 0x8140 else w + 0xc140
  }

  function KanjiAt(bytes: seq<nat>, from: nat, count: nat): (b: seq<nat>)
    requires from + 13 * count <= 8 * |bytes|
    ensures |b| == 2 * count
  {
    if count == 0 then []
    else
      var w := Sjis(NumberAt(bytes, from + 13 * (count - 1), 13));
      KanjiAt(bytes, from, count - 1) + [w / 256 % 256, w % 256]
  }

  function KanjiSegment(bytes: seq<nat>, dataBits: nat, v: nat, r: Parsed): (r': Parsed)
    requires r.ptr <= dataBits <= 8 * |bytes| && |r.payload| < MAX_PAYLOAD
    ensures r.ptr <= r'.ptr <= dataBits && |r'.payload| < MAX_PAYLOAD && r'.dataType == r.dataType && r'.eci == r.eci
  {
    var (count, from) := Count(bytes, dataBits, KANJI, v, r.ptr);
    if |r.payload| + count * 2 + 1 > MAX_PAYLOAD then r.(status := DataOverflow, ptr := from)
    else if dataBits - from < 13 * count then r.(status := DataUnderflow, ptr := from)
    else r.(status := Success, payload := r.payload + KanjiAt(bytes, from, count), ptr := from + 13 * count)
  }

  // ---- ECI -------------------------------------------------------------------------------------------------------------------

  /** One to three bytes; the bits that tell how many stay in the number. */
  function EciSegment(bytes: seq<nat>, dataBits: nat, r: Parsed): (r': Parsed)
    requires r.ptr <= dataBits <= 8 * |bytes|
    ensures r.ptr <= r'.ptr <= dataBits && r'.payload == r.payload && r'.dataType == r.dataType
  {
    if dataBits - r.ptr < 8 then r.(status := DataUnderflow)
    else
      var e, r1 := NumberAt(bytes, r.ptr, 8), r.(ptr := r.ptr + 8);
      if e / 64 % 4 == 2 then MoreEci(bytes, dataBits, 8, e, r1)
      else if e / 32 % 8 == 6 then MoreEci(bytes, dataBits, 16, e, r1)
      else r1.(status := Success, eci := e)
  }

  function MoreEci(bytes: seq<nat>, dataBits: nat, n: nat, e: nat, r: Parsed): (r': Parsed)
    requires r.ptr <= dataBits <= 8 * |bytes|
    ensures r.ptr <= r'.ptr <= dataBits && r'.payload == r.payload && r'.dataType == r.dataType
  {
    if dataBits - r.ptr < n then r.(status := DataUnderflow, eci := e)
    else r.(status := Success, eci := (if n == 8 then 256 * e else 65536 * e) + NumberAt(bytes, r.ptr, n), ptr := r.ptr + n)
  }

  // ---- all of them --------------------------------------------------------------------------------------------------------------

  predicate Known(mode: nat) { mode == NUMERIC || mode == ALPHA || mode == BYTE || mode == KANJI || mode == ECI }

  function Segment(bytes: seq<nat>, dataBits: nat, mode: nat, v: nat, r: Parsed): (r': Parsed)
    requires r.ptr <= dataBits <= 8 * |bytes| && |r.payload| < MAX_PAYLOAD && Known(mode)
    ensures r.ptr <= r'.ptr <= dataBits && |r'.payload| < MAX_PAYLOAD && r'.dataType == r.dataType
    ensures r'.status in {Success, DataOverflow, DataUnderflow}
  {
    if mode == BYTE then ByteSegment(bytes, dataBits, v, r)
    else if mode == KANJI then KanjiSegment(bytes, dataBits, v, r)
    else if mode == ECI then EciSegment(bytes, dataBits, r)
    else TextSegment(bytes, dataBits, mode, v, r)
  }

  function Raised(r: Parsed, mode: nat): Parsed {
    r.(dataType := if mode != ECI && mode > r.dataType then mode else r.dataType)
  }

  /** Segments one after the other, up to a terminator, an unknown mode, an error, or the last three bits. */
  function Parse(bytes: seq<nat>, dataBits: nat, v: nat, r: Parsed): (r': Parsed)
    requires r.ptr <= dataBits <= 8 * |bytes| && |r.payload| < MAX_PAYLOAD
    ensures |r'.payload| < MAX_PAYLOAD && r'.status in {Success, DataOverflow, DataUnderflow}
    decreases dataBits - r.ptr
  {
    if dataBits - r.ptr < 4 then r.(status := Success)
    else
      var mode, r1 := NumberAt(bytes, r.ptr, 4), r.(ptr := r.ptr + 4);
      if !Known(mode) then r1.(status := Success)
      else
        var r2 := Segment(bytes, dataBits, mode, v, r1);
        if r2.status != Success then r2 else Parse(bytes, dataBits, v, Raised(r2, mode))
  }

  // ---- only the first dataBits bits matter ---------------------------------------------------------------------------------------

  lemma SameBits(a: seq<nat>, b: seq<nat>, from: nat, n: nat)
    requires a <= b && from + n <= 8 * |a|
    ensures BitsAt(b, from, n) == BitsAt(a, from, n) && NumberAt(b, from, n) == NumberAt(a, from, n)
  {
    hide BitAt, Value;
    forall k | 0 <= k < n ensures BitsAt(b, from, n)[k] == BitsAt(a, from, n)[k] {
      assert b[(from + k) / 8] == a[(from + k) / 8];
    }
    assert BitsAt(b, from, n) == BitsAt(a, from, n);
  }

  lemma {:induction false} TuplesPrefix(a: seq<nat>, b: seq<nat>, dataBits: nat, alphabet: string, most: nat, width: nat,
                                        count: nat, r: Parsed)
    requires a <= b && r.ptr <= dataBits <= 8 * |a| && |r.payload| + count < MAX_PAYLOAD && alphabet != [] && most > 0
    ensures Tuples(b, dataBits, alphabet, most, width, count, r) == Tuples(a, dataBits, alphabet, most, width, count, r)
    decreases count
  {
    hide NumberAt, Chars, TupleWidth;
    if count > 0 {
      var k := if count < most then count else most;
      var n := TupleWidth(width, k);
      if dataBits - r.ptr >= n {
        SameBits(a, b, r.ptr, n);
        TuplesPrefix(a, b, dataBits, alphabet, most, width, count - k, OneTuple(a, alphabet, k, n, r));
      }
    }
  }

  lemma CountPrefix(a: seq<nat>, b: seq<nat>, dataBits: nat, mode: nat, v: nat, ptr: nat)
    requires a <= b && ptr <= dataBits <= 8 * |a|
    ensures Count(b, dataBits, mode, v, ptr) == Count(a, dataBits, mode, v, ptr)
  {
    hide NumberAt;
    SameBits(a, b, ptr, Taken(dataBits, ptr, CountWidth(mode, v)));
  }

  lemma TextPrefix(a: seq<nat>, b: seq<nat>, dataBits: nat, mode: nat, v: nat, r: Parsed)
    requires a <= b && r.ptr <= dataBits <= 8 * |a| && |r.payload| < MAX_PAYLOAD
    ensures TextSegment(b, dataBits, mode, v, r) == TextSegment(a, dataBits, mode, v, r)
  {
    hide Tuples, Count;
    CountPrefix(a, b, dataBits, mode, v, r.ptr);
    var (count, from) := Count(a, dataBits, mode, v, r.ptr);
    if |r.payload| + count + 1 <= MAX_PAYLOAD {
      if mode == NUMERIC {
        TuplesPrefix(a, b, dataBits, DIGITS, 3, 3, count, r.(ptr := from));
      } else {
        TuplesPrefix(a, b, dataBits, ALPHANUMERIC, 2, 5, count, r.(ptr := from));
      }
    }
  }

  lemma BytesPrefix(a: seq<nat>, b: seq<nat>, dataBits: nat, v: nat, r: Parsed)
    requires a <= b && r.ptr <= dataBits <= 8 * |a| && |r.payload| < MAX_PAYLOAD
    ensures ByteSegment(b, dataBits, v, r) == ByteSegment(a, dataBits, v, r)
  {
    hide NumberAt, Count;
    CountPrefix(a, b, dataBits, BYTE, v, r.ptr);
    var (count, from) := Count(a, dataBits, BYTE, v, r.ptr);
    if |r.payload| + count + 1 <= MAX_PAYLOAD && dataBits - from >= 8 * count {
      forall i | 0 <= i < count ensures BytesAt(b, from, count)[i] == BytesAt(a, from, count)[i] {
        SameBits(a, b, from + 8 * i, 8);
      }
      assert BytesAt(b, from, count) == BytesAt(a, from, count);
    }
  }

  lemma {:induction false} KanjiAtPrefix(a: seq<nat>, b: seq<nat>, from: nat, count: nat)
    requires a <= b && from + 13 * count <= 8 * |a|
    ensures KanjiAt(b, from, count) == KanjiAt(a, from, count)
  {
    hide NumberAt, Sjis;
    if count > 0 {
      KanjiAtPrefix(a, b, from, count - 1);
      SameBits(a, b, from + 13 * (count - 1), 13);
    }
  }

  lemma KanjiPrefix(a: seq<nat>, b: seq<nat>, dataBits: nat, v: nat, r: Parsed)
    requires a <= b && r.ptr <= dataBits <= 8 * |a| && |r.payload| < MAX_PAYLOAD
    ensures KanjiSegment(b, dataBits, v, r) == KanjiSegment(a, dataBits, v, r)
  {
    hide KanjiAt, Count;
    CountPrefix(a, b, dataBits, KANJI, v, r.ptr);
    var (count, from) := Count(a, dataBits, KANJI, v, r.ptr);
    if dataBits - from >= 13 * count {
      KanjiAtPrefix(a, b, from, count);
    }
  }

  lemma EciPrefix(a: seq<nat>, b: seq<nat>, dataBits: nat, r: Parsed)
    requires a <= b && r.ptr <= dataBits <= 8 * |a|
    ensures EciSegment(b, dataBits, r) == EciSegment(a, dataBits, r)
  {
    hide NumberAt;
    if dataBits - r.ptr >= 8 {
      SameBits(a, b, r.ptr, 8);
      if dataBits - r.ptr >= 16 {
        SameBits(a, b, r.ptr + 8, 8);
      }
      if dataBits - r.ptr >= 24 {
        SameBits(a, b, r.ptr + 8, 16);
      }
    }
  }

  lemma SegmentPrefix(a: seq<nat>, b: seq<nat>, dataBits: nat, mode: nat, v: nat, r: Parsed)
    requires a <= b && r.ptr <= dataBits <= 8 * |a| && |r.payload| < MAX_PAYLOAD && Known(mode)
    ensures Segment(b, dataBits, mode, v, r) == Segment(a, dataBits, mode, v, r)
  {
    hide ByteSegment, KanjiSegment, EciSegment, TextSegment;
    BytesPrefix(a, b, dataBits, v, r);
    KanjiPrefix(a, b, dataBits, v, r);
    EciPrefix(a, b, dataBits, r);
    TextPrefix(a, b, dataBits, mode, v, r);
  }

  /** What a stream says depends on its first dataBits bits alone. */
  lemma {:induction false} ParsePrefix(a: seq<nat>, b: seq<nat>, dataBits: nat, v: nat, r: Parsed)
    requires a <= b && r.ptr <= dataBits <= 8 * |a| && |r.payload| < MAX_PAYLOAD
    ensures Parse(b, dataBits, v, r) == Parse(a, dataBits, v, r)
    decreases dataBits - r.ptr
  {
    hide NumberAt, Segment;
    if dataBits - r.ptr >= 4 {
      SameBits(a, b, r.ptr, 4);
      var mode, r1 := NumberAt(a, r.ptr, 4), r.(ptr := r.ptr + 4);
      if Known(mode) {
        SegmentPrefix(a, b, dataBits, mode, v, r1);
        var r2 := Segment(a, dataBits, mode, v, r1);
        if r2.status == Success {
          ParsePrefix(a, b, dataBits, v, Raised(r2, mode));
        }
      }
    }
  }

  // ---- what ISO/IEC 18004 writes is read back ---------------------------------------------------------------------------------------

  /** A piece of bits that are somewhere in the stream. */
  lemma PieceAt(bytes: seq<nat>, at: nat, all: seq<bool>, from: nat, n: nat)
    requires at + |all| <= 8 * |bytes| && BitsAt(bytes, at, |all|) == all && from + n <= |all|
    ensures BitsAt(bytes, at + from, n) == all[from..from + n]
  {
    hide StreamBit;
    var there, piece := BitsAt(bytes, at + from, n), all[from..from + n];
    forall k | 0 <= k < n ensures there[k] == piece[k] {
      assert BitsAt(bytes, at, |all|)[from + k] == all[from + k];
    }
  }

  /** A number written in n bits is read as that number. */
  lemma FieldAt(bytes: seq<nat>, at: nat, all: seq<bool>, from: nat, value: nat, n: nat)
    requires at + |all| <= 8 * |bytes| && BitsAt(bytes, at, |all|) == all && from + n <= |all|
    requires all[from..from + n] == BitsOf(value, n) && value < Pow2(n)
    ensures NumberAt(bytes, at + from, n) == value
  {
    hide BitsAt, StreamBit, BitsOf, Value;
    PieceAt(bytes, at, all, from, n);
    ValueOfBits(value, n);
  }

  predicate Below(places: seq<nat>, base: nat) {
    forall i :: 0 <= i < |places| ==> places[i] < base
  }

  /** Bits in two parts. */
  lemma TwoParts(bytes: seq<nat>, at: nat, a: seq<bool>, b: seq<bool>)
    requires at + |a| + |b| <= 8 * |bytes| && BitsAt(bytes, at, |a| + |b|) == a + b
    ensures BitsAt(bytes, at, |a|) == a && BitsAt(bytes, at + |a|, |b|) == b
  {
    hide BitsAt, StreamBit;
    PieceAt(bytes, at, a + b, 0, |a|);
    PieceAt(bytes, at, a + b, |a|, |b|);
    assert (a + b)[0..|a|] == a && (a + b)[|a|..|a| + |b|] == b;
  }

  lemma FieldIs(bytes: seq<nat>, at: nat, value: nat, n: nat)
    requires at + n <= 8 * |bytes| && BitsAt(bytes, at, n) == BitsOf(value, n) && value < Pow2(n)
    ensures NumberAt(bytes, at, n) == value
  {
    hide BitsAt, BitsOf, Value, StreamBit;
    ValueOfBits(value, n);
  }

  /** The characters with these places in the alphabet. */
  function Text(alphabet: string, places: seq<nat>): (c: seq<nat>)
    requires Below(places, |alphabet|)
    ensures |c| == |places|
  {
    if places == [] then [] else Text(alphabet, places[..|places| - 1]) + [alphabet[places[|places| - 1]] as int]
  }

  function Number(base: nat, places: seq<nat>): nat {
    if places == [] then 0 else base * Number(base, places[..|places| - 1]) + places[|places| - 1]
  }

  function Power(base: nat, k: nat): nat {
    if k == 0 then 1 else base * Power(base, k - 1)
  }

  /** The places in a tuple read back, and the tuple is in range. */
  lemma {:induction false} CharsBack(alphabet: string, places: seq<nat>)
    requires Below(places, |alphabet|) && alphabet != []
    ensures Number(|alphabet|, places) < Power(|alphabet|, |places|)
    ensures Chars(alphabet, Number(|alphabet|, places), |places|) == Text(alphabet, places)
  {
    if places != [] {
      var init, last, b := places[..|places| - 1], places[|places| - 1], |alphabet|;
      CharsBack(alphabet, init);
      PlaceOff(b, Number(b, init), last, Power(b, |init|));
    }
  }

  lemma PlaceOff(b: nat, x: nat, last: nat, p: nat)
    requires last < b && x < p
    ensures (b * x + last) / b == x && (b * x + last) % b == last && b * x + last < b * p
  {
    ModUnique(b * x + last, b, x, last);
    Multiples(b, x + 1, p);
    NextMultiple(b, x);
  }

  /** A tuple of each length fits its bits. */
  ghost predicate Fits(base: nat, most: nat, width: nat) {
    most > 0 && base > 0 && forall k :: 0 <= k <= most ==> Power(base, k) <= Pow2(TupleWidth(width, k))
  }

  lemma ModesFit()
    ensures |DIGITS| == 10 && |ALPHANUMERIC| == 45 && Fits(10, 3, 3) && Fits(45, 2, 5)
  {
    PowersOfTwo();
    assert Power(10, 0) == 1 && Power(10, 1) == 10 && Power(10, 2) == 100 && Power(10, 3) == 1000;
    assert Power(45, 0) == 1 && Power(45, 1) == 45 && Power(45, 2) == 2025;
    assert Pow2(10) == 1024 && Pow2(11) == 2048;
  }

  /** The tuples of these places, as section 7.4 of ISO/IEC 18004:2015 writes them. */
  function TupleBits(base: nat, most: nat, width: nat, places: seq<nat>): (b: seq<bool>)
    requires most > 0
  {
    if places == [] then []
    else
      var k := if |places| < most then |places| else most;
      BitsOf(Number(base, places[..k]), TupleWidth(width, k)) + TupleBits(base, most, width, places[k..])
  }

  /** The first tuple is read as it was written, and the others are next. */
  lemma TupleRead(bytes: seq<nat>, alphabet: string, most: nat, width: nat, k: nat, n: nat, head: seq<nat>, tail: seq<bool>, r: Parsed)
    requires Fits(|alphabet|, most, width) && Below(head, |alphabet|) && |head| == k <= most && n == TupleWidth(width, k)
    requires r.ptr + n + |tail| <= 8 * |bytes|
    requires BitsAt(bytes, r.ptr, n + |tail|) == BitsOf(Number(|alphabet|, head), n) + tail
    ensures OneTuple(bytes, alphabet, k, n, r) == r.(payload := r.payload + Text(alphabet, head), ptr := r.ptr + n)
    ensures BitsAt(bytes, r.ptr + n, |tail|) == tail
  {
    hide BitsAt, StreamBit, BitsOf, NumberAt, Chars, TupleWidth, Number, Below, Text, Fits, Power, Pow2;
    FitsOne(|alphabet|, most, width, k);
    CharsBack(alphabet, head);
    TwoParts(bytes, r.ptr, BitsOf(Number(|alphabet|, head), n), tail);
    FieldIs(bytes, r.ptr, Number(|alphabet|, head), n);
  }

  lemma {:induction false} TuplesRead(bytes: seq<nat>, dataBits: nat, alphabet: string, most: nat, width: nat, places: seq<nat>, r: Parsed)
    requires Fits(|alphabet|, most, width) && Below(places, |alphabet|)
    requires var b := TupleBits(|alphabet|, most, width, places);
      r.ptr + |b| <= dataBits <= 8 * |bytes| && BitsAt(bytes, r.ptr, |b|) == b
    requires |r.payload| + |places| < MAX_PAYLOAD
    ensures Tuples(bytes, dataBits, alphabet, most, width, |places|, r) ==
      r.(status := Success, payload := r.payload + Text(alphabet, places),
         ptr := r.ptr + |TupleBits(|alphabet|, most, width, places)|)
    decreases |places|
  {
    hide BitsAt, StreamBit, BitsOf, NumberAt, OneTuple, TupleWidth, Number, Text, Below, Fits;
    FitsOne(|alphabet|, most, width, 0);
    if places == [] {
      NoText(alphabet);
      assert r.payload + [] == r.payload;
    } else {
      var k := if |places| < most then |places| else most;
      var n := TupleWidth(width, k);
      var head, rest := places[..k], places[k..];
      assert head + rest == places;
      TextConcat(alphabet, head, rest);
      TupleRead(bytes, alphabet, most, width, k, n, head, TupleBits(|alphabet|, most, width, rest), r);
      TuplesRead(bytes, dataBits, alphabet, most, width, rest, OneTuple(bytes, alphabet, k, n, r));
      assert (r.payload + Text(alphabet, head)) + Text(alphabet, rest) == r.payload + Text(alphabet, places);
    }
  }

  lemma FitsOne(base: nat, most: nat, width: nat, k: nat)
    requires Fits(base, most, width) && k <= most
    ensures most > 0 && base > 0 && Power(base, k) <= Pow2(TupleWidth(width, k))
  {
  }

  lemma NoText(alphabet: string)
    ensures Below([], |alphabet|) && Text(alphabet, []) == []
  {
  }

  lemma {:induction false} TextConcat(alphabet: string, a: seq<nat>, b: seq<nat>)
    requires Below(a + b, |alphabet|)
    ensures Below(a, |alphabet|) && Below(b, |alphabet|)
    ensures Text(alphabet, a + b) == Text(alphabet, a) + Text(alphabet, b)
  {
    BelowParts(a, b, |alphabet|);
    if b == [] {
      assert a + b == a;
    } else {
      var init := b[..|b| - 1];
      assert (a + b)[..|a + b| - 1] == a + init;
      TextConcat(alphabet, a, init);
    }
  }

  lemma BelowParts(a: seq<nat>, b: seq<nat>, n: nat)
    requires Below(a + b, n)
    ensures Below(a, n) && Below(b, n)
  {
    forall i | 0 <= i < |a| ensures a[i] < n {
      assert (a + b)[i] == a[i];
    }
    forall i | 0 <= i < |b| ensures b[i] < n {
      assert (a + b)[|a| + i] == b[i];
    }
  }

  // ---- whole segments --------------------------------------------------------------------------------------------------------------

  /** The stream begins with these bits; behind them there is a terminator, or no room for one. */
  ghost predicate Begins(bytes: seq<nat>, dataBits: nat, head: seq<bool>) {
    && |head| <= dataBits <= 8 * |bytes| && BitsAt(bytes, 0, |head|) == head
    && (dataBits - |head| >= 4 ==> NumberAt(bytes, |head|, 4) == 0)
  }

  /** Mode, count, and the rest. */
  function HeadBits(mode: nat, count: nat, v: nat, body: seq<bool>): (b: seq<bool>)
    ensures |b| == 4 + CountWidth(mode, v) + |body|
  {
    BitsOf(mode, 4) + BitsOf(count, CountWidth(mode, v)) + body
  }

  /** Mode and count of the first segment are read, and its body is next. */
  lemma HeadRead(bytes: seq<nat>, dataBits: nat, mode: nat, count: nat, v: nat, body: seq<bool>)
    requires Begins(bytes, dataBits, HeadBits(mode, count, v, body)) && mode < 16 && count < Pow2(CountWidth(mode, v))
    ensures var from := 4 + CountWidth(mode, v);
      && from + |body| <= dataBits <= 8 * |bytes| && NumberAt(bytes, 0, 4) == mode
      && Count(bytes, dataBits, mode, v, 4) == (count, from) && BitsAt(bytes, from, |body|) == body
  {
    hide BitsAt, StreamBit, BitsOf, NumberAt;
    PowersOfTwo();
    hide Pow2;
    var w := CountWidth(mode, v);
    TwoParts(bytes, 0, BitsOf(mode, 4) + BitsOf(count, w), body);
    TwoParts(bytes, 0, BitsOf(mode, 4), BitsOf(count, w));
    FieldIs(bytes, 0, mode, 4);
    FieldIs(bytes, 4, count, w);
  }

  /** Behind the segment nothing more is read. */
  lemma TailParses(bytes: seq<nat>, dataBits: nat, head: seq<bool>, v: nat, r: Parsed)
    requires Begins(bytes, dataBits, head) && r.ptr == |head| && |r.payload| < MAX_PAYLOAD
    ensures var r' := Parse(bytes, dataBits, v, r);
      r'.status == Success && r'.payload == r.payload && r'.dataType == r.dataType && r'.eci == r.eci
  {
    hide NumberAt, BitsAt, StreamBit;
  }

  /** One segment and nothing more. */
  lemma OneSegment(bytes: seq<nat>, dataBits: nat, head: seq<bool>, mode: nat, v: nat, payload: seq<nat>, eci: nat)
    requires Begins(bytes, dataBits, head) && |head| >= 4 && Known(mode) && NumberAt(bytes, 0, 4) == mode && |payload| < MAX_PAYLOAD
    requires Segment(bytes, dataBits, mode, v, NOTHING.(ptr := 4)) == Parsed(Success, payload, 0, |head|, eci)
    ensures var r := Parse(bytes, dataBits, v, NOTHING);
      r.status == Success && r.payload == payload && r.dataType == (if mode == ECI then 0 else mode) && r.eci == eci
  {
    hide NumberAt, BitsAt, StreamBit, Segment, Begins;
    BeginsLength(bytes, dataBits, head);
    TailParses(bytes, dataBits, head, v, Raised(Parsed(Success, payload, 0, |head|, eci), mode));
  }

  lemma BeginsLength(bytes: seq<nat>, dataBits: nat, head: seq<bool>)
    requires Begins(bytes, dataBits, head)
    ensures |head| <= dataBits <= 8 * |bytes|
  {
  }

  function Alphabet(mode: nat): string { if mode == NUMERIC then DIGITS else ALPHANUMERIC }

  function TextBits(mode: nat, places: seq<nat>): seq<bool> {
    if mode == NUMERIC then TupleBits(10, 3, 3, places) else TupleBits(45, 2, 5, places)
  }

  /** A numeric or alphanumeric segment is read back as its text. */
  lemma TextParses(bytes: seq<nat>, dataBits: nat, mode: nat, v: nat, places: seq<nat>)
    requires mode == NUMERIC || mode == ALPHA
    requires Below(places, |Alphabet(mode)|) && |places| + 1 <= MAX_PAYLOAD && |places| < Pow2(CountWidth(mode, v))
    requires Begins(bytes, dataBits, HeadBits(mode, |places|, v, TextBits(mode, places)))
    ensures var r := Parse(bytes, dataBits, v, NOTHING);
      r.status == Success && r.payload == Text(Alphabet(mode), places) && r.dataType == mode && r.eci == 0
  {
    hide Begins, BitsAt, StreamBit, NumberAt, TupleBits, Tuples, Text, Fits, Below, Parse, Pow2, Count;
    ModesFit();
    var body := TextBits(mode, places);
    var from := 4 + CountWidth(mode, v);
    HeadRead(bytes, dataBits, mode, |places|, v, body);
    var r0 := NOTHING.(ptr := from);
    if mode == NUMERIC {
      TuplesRead(bytes, dataBits, DIGITS, 3, 3, places, r0);
    } else {
      TuplesRead(bytes, dataBits, ALPHANUMERIC, 2, 5, places, r0);
    }
    assert [] + Text(Alphabet(mode), places) == Text(Alphabet(mode), places);
    OneSegment(bytes, dataBits, HeadBits(mode, |places|, v, body), mode, v, Text(Alphabet(mode), places), 0);
  }

  // ---- kanji and ECI -------------------------------------------------------------------------------------

  /** The two-byte characters of kanji mode. */
  predicate Kanji(w: nat) {
    (0x8140 <= w <= 0x9ffc || 0xe040 <= w <= 0xebbf) && w % 256 >= 0x40
  }

  function KanjiCode(w: nat): nat
    requires Kanji(w)
  {
    var d := w - if w <= 0x9ffc then 0x8140 else 0xc140;
    d / 256 * 0xc0 + d % 256
  }

  /** Every character of kanji mode comes back from its thirteen bits. */
  lemma KanjiBack(w: nat)
    requires Kanji(w)
    ensures KanjiCode(w) < Pow2(13) && Sjis(KanjiCode(w)) == w
  {
    assert Pow2(13) == 8192 by { PowersOfTwo(); assert Pow2(10) == 1024; }
    hide Pow2;
    var d := w - if w <= 0x9ffc then 0x8140 else 0xc140;
    assert d % 256 < 0xc0;
    ModUnique(d / 256 * 0xc0 + d % 256, 0xc0, d / 256, d % 256);
  }

  predicate AllKanji(ws: seq<nat>) {
    forall i :: 0 <= i < |ws| ==> Kanji(ws[i])
  }

  function KanjiBits(ws: seq<nat>): (b: seq<bool>)
    requires AllKanji(ws)
    ensures |b| == 13 * |ws|
  {
    if ws == [] then [] else KanjiBits(ws[..|ws| - 1]) + BitsOf(KanjiCode(ws[|ws| - 1]), 13)
  }

  /** The characters, two bytes each. */
  function KanjiBytes(ws: seq<nat>): (b: seq<nat>)
    ensures |b| == 2 * |ws|
  {
    if ws == [] then [] else KanjiBytes(ws[..|ws| - 1]) + [ws[|ws| - 1] / 256, ws[|ws| - 1] % 256]
  }

  lemma {:induction false} KanjiRead(bytes: seq<nat>, from: nat, ws: seq<nat>)
    requires AllKanji(ws) && from + 13 * |ws| <= 8 * |bytes| && BitsAt(bytes, from, 13 * |ws|) == KanjiBits(ws)
    ensures KanjiAt(bytes, from, |ws|) == KanjiBytes(ws)
  {
    hide BitsAt, StreamBit, BitsOf, NumberAt, Sjis, KanjiCode, Pow2;
    if ws != [] {
      var n := |ws| - 1;
      var init, last := ws[..n], ws[n];
      TwoParts(bytes, from, KanjiBits(init), BitsOf(KanjiCode(last), 13));
      KanjiRead(bytes, from, init);
      KanjiBack(last);
      FieldIs(bytes, from + 13 * n, KanjiCode(last), 13);
    }
  }

  /** A kanji segment is read back as its two-byte characters. */
  lemma KanjiParses(bytes: seq<nat>, dataBits: nat, v: nat, ws: seq<nat>)
    requires AllKanji(ws) && 2 * |ws| + 1 <= MAX_PAYLOAD && |ws| < Pow2(CountWidth(KANJI, v))
    requires Begins(bytes, dataBits, HeadBits(KANJI, |ws|, v, KanjiBits(ws)))
    ensures var r := Parse(bytes, dataBits, v, NOTHING);
      r.status == Success && r.payload == KanjiBytes(ws) && r.dataType == KANJI && r.eci == 0
  {
    hide Begins, BitsAt, StreamBit, NumberAt, KanjiAt, KanjiBits, KanjiBytes, AllKanji, Parse, Pow2, Count;
    HeadRead(bytes, dataBits, KANJI, |ws|, v, KanjiBits(ws));
    KanjiRead(bytes, 4 + CountWidth(KANJI, v), ws);
    assert [] + KanjiBytes(ws) == KanjiBytes(ws);
    OneSegment(bytes, dataBits, HeadBits(KANJI, |ws|, v, KanjiBits(ws)), KANJI, v, KanjiBytes(ws), 0);
  }

  /** One, two or three bytes; the leading bits tell how many. */
  function EciBits(n: nat): (b: seq<bool>)
    ensures |b| >= 8
  {
    if n < 128 then BitsOf(n, 8)
    else if n < 16384 then BitsOf(0x80 + n / 256, 8) + BitsOf(n % 256, 8)
    else BitsOf(0xc0 + n / 65536, 8) + BitsOf(n % 65536, 16)
  }

  /** An ECI segment leaves the assignment number with its leading bits: the number itself only below 128. */
  lemma EciRead(bytes: seq<nat>, dataBits: nat, n: nat, r: Parsed)
    requires n < 1_000_000 && r.ptr + |EciBits(n)| <= dataBits <= 8 * |bytes|
    requires BitsAt(bytes, r.ptr, |EciBits(n)|) == EciBits(n)
    ensures var r' := EciSegment(bytes, dataBits, r);
      && r'.status == Success && r'.ptr == r.ptr + |EciBits(n)|
      && r'.eci == (if n < 128 then n else if n < 16384 then 0x8000 + n else 0xc00000 + n)
      && (r'.eci == n <==> n < 128)
  {
    hide BitsAt, StreamBit, BitsOf, NumberAt;
    EciParts(n);
    hide Pow2;
    if n < 128 {
      FieldIs(bytes, r.ptr, n, 8);
    } else if n < 16384 {
      TwoParts(bytes, r.ptr, BitsOf(0x80 + n / 256, 8), BitsOf(n % 256, 8));
      FieldIs(bytes, r.ptr, 0x80 + n / 256, 8);
      FieldIs(bytes, r.ptr + 8, n % 256, 8);
    } else {
      TwoParts(bytes, r.ptr, BitsOf(0xc0 + n / 65536, 8), BitsOf(n % 65536, 16));
      FieldIs(bytes, r.ptr, 0xc0 + n / 65536, 8);
      FieldIs(bytes, r.ptr + 8, n % 65536, 16);
    }
  }

  /** Assignment 128 is read as 0x8080. */
  lemma EciExample()
    ensures BitsAt([0x80, 0x80], 0, 16) == EciBits(128) && EciSegment([0x80, 0x80], 16, NOTHING).eci == 0x8080
  {
    hide BitsOf, NumberAt;
    var bytes := [0x80, 0x80];
    forall k | 0 <= k < 16 ensures BitsAt(bytes, 0, 16)[k] == EciBits(128)[k] {
    }
    assert BitsAt(bytes, 0, 16) == EciBits(128);
    EciRead(bytes, 16, 128, NOTHING);
  }

  /** The first byte tells how many follow, and the pieces fit their widths. */
  lemma EciParts(n: nat)
    requires n < 1_000_000
    ensures n < 128 ==> n < Pow2(8) && n / 64 % 4 != 2 && n / 32 % 8 != 6
    ensures 128 <= n < 16384 ==> var e := 0x80 + n / 256;
      e < Pow2(8) && e / 64 % 4 == 2 && n % 256 < Pow2(8) && 256 * e + n % 256 == 0x8000 + n
    ensures n >= 16384 ==> var e := 0xc0 + n / 65536;
      e < Pow2(8) && e / 64 % 4 != 2 && e / 32 % 8 == 6 && n % 65536 < Pow2(16) && 65536 * e + n % 65536 == 0xc00000 + n
  {
    PowersOfTwo();
    assert Pow2(16) == 65536 by { assert Pow2(10) == 1024; assert Pow2(13) == 8192; }
  }
}
