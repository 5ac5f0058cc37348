/** What the codewords of a symbol hold, byte by byte, in the figures of ISO/IEC 18004. */
module StreamLaws {
  import opened Bits
  import opened BitStream
  import opened Galois
  import opened Syndromes
  import opened RsEncode
  import opened Versions
  import opened Codestream
  import opened Segments
  import opened Payload
  import QrEncode
  import Tables

  // ---- numbers in a byte string ---------------------------------------------------------------------------------------

  lemma {:induction false} ValueConcat(a: seq<bool>, b: seq<bool>)
    ensures Value(a + b) == Value(a) * Pow2(|b|) + Value(b)
  {
    if b == [] {
      assert a + b == a;
    } else {
      var n := |b| - 1;
      assert (a + b)[..|a + b| - 1] == a + b[..n];
      ValueConcat(a, b[..n]);
      DoubleShift(Value(a), Pow2(n), Value(b[..n]));
    }
  }

  lemma DoubleShift(a: nat, p: nat, b: nat)
    ensures 2 * (a * p + b) == a * (2 * p) + 2 * b
  {
  }

  lemma NumberSplit(bytes: seq<nat>, at: nat, n: nat, k: nat)
    requires at + n + k <= 8 * |bytes|
    ensures NumberAt(bytes, at, n + k) == NumberAt(bytes, at, n) * Pow2(k) + NumberAt(bytes, at + n, k)
    ensures NumberAt(bytes, at + n, k) < Pow2(k)
  {
    hide StreamBit, Value, Pow2;
    assert BitsAt(bytes, at, n + k) == BitsAt(bytes, at, n) + BitsAt(bytes, at + n, k);
    ValueConcat(BitsAt(bytes, at, n), BitsAt(bytes, at + n, k));
    ValueLess(BitsAt(bytes, at + n, k));
  }

  /** A byte is its two halves, the high one first. */
  lemma ByteHalves(bytes: seq<nat>, j: nat)
    requires j < |bytes| && bytes[j] < 256
    ensures NumberAt(bytes, 8 * j, 8) == bytes[j]
    ensures NumberAt(bytes, 8 * j, 4) == bytes[j] / 16 && NumberAt(bytes, 8 * j + 4, 4) == bytes[j] % 16
  {
    hide Value, BitsOf, NumberAt, Pow2;
    PowersOfTwo();
    assert BitsAt(bytes, 8 * j, 8) == BitsOf(bytes[j], 8);
    FieldIs(bytes, 8 * j, bytes[j], 8);
    NumberSplit(bytes, 8 * j, 4, 4);
  }

  /** Eight bits from the middle of one byte to the middle of the next. */
  lemma MiddleByte(bytes: seq<nat>, j: nat)
    requires j + 1 < |bytes| && bytes[j] < 256 && bytes[j + 1] < 256
    ensures NumberAt(bytes, 8 * j + 4, 8) == bytes[j] % 16 * 16 + bytes[j + 1] / 16
  {
    hide NumberAt, Pow2;
    PowersOfTwo();
    ByteHalves(bytes, j);
    ByteHalves(bytes, j + 1);
    NumberSplit(bytes, 8 * j + 4, 4, 4);
  }

  lemma MiddlePair(bytes: seq<nat>, j: nat)
    requires j + 2 < |bytes| && bytes[j] < 256 && bytes[j + 1] < 256 && bytes[j + 2] < 256
    ensures NumberAt(bytes, 8 * j + 4, 16) == bytes[j] % 16 * 4096 + bytes[j + 1] * 16 + bytes[j + 2] / 16
  {
    hide NumberAt, Pow2;
    PowersOfTwo();
    MiddleByte(bytes, j);
    MiddleByte(bytes, j + 1);
    NumberSplit(bytes, 8 * j + 4, 8, 8);
  }

  // ---- the data codewords -----------------------------------------------------------------------------------------------

  lemma SegmentFields(bytes: seq<nat>, p: seq<nat>, v: nat)
    requires Carries(bytes, p, v) && |p| < Pow2(CountWidth(BYTE, v)) && Octets(p)
    ensures var from := 4 + CountWidth(BYTE, v);
      && from + 8 * |p| + 4 <= 8 * |bytes|
      && NumberAt(bytes, 0, 4) == 4 && NumberAt(bytes, 4, from - 4) == |p| && NumberAt(bytes, from + 8 * |p|, 4) == 0
      && forall i :: 0 <= i < |p| ==> NumberAt(bytes, from + 8 * i, 8) == p[i]
  {
    hide BitsAt, StreamBit, BitsOf, NumberAt, BytesBits, CountWidth;
    PowersOfTwo();
    hide Pow2;
    var w, body := CountWidth(BYTE, v), BytesBits(p);
    TwoParts(bytes, 0, BitsOf(4, 4) + BitsOf(|p|, w) + body, BitsOf(0, 4));
    TwoParts(bytes, 0, BitsOf(4, 4) + BitsOf(|p|, w), body);
    TwoParts(bytes, 0, BitsOf(4, 4), BitsOf(|p|, w));
    FieldIs(bytes, 0, 4, 4);
    FieldIs(bytes, 4, |p|, w);
    FieldIs(bytes, 4 + w + 8 * |p|, 0, 4);
    forall i | 0 <= i < |p| ensures NumberAt(bytes, 4 + w + 8 * i, 8) == p[i] {
      BytesBitsAt(p, i);
      FieldAt(bytes, 4 + w, body, 8 * i, p[i], 8);
    }
  }

  lemma ShortHeader(d: seq<nat>, p: seq<nat>, v: nat)
    requires v <= 9 && |p| < 256 && Octets(d) && Octets(p) && Carries(d, p, v)
    ensures var n := |p|;
      && n + 2 <= |d| && d[0] / 16 == 4 && d[0] % 16 * 16 + d[1] / 16 == n && d[n + 1] % 16 == 0
      && forall i :: 0 <= i < n ==> d[i + 1] % 16 * 16 + d[i + 2] / 16 == p[i]
  {
    hide NumberAt, BitsAt, Carries, Octets;
    OctetAt(d);
    var n := |p|;
    PowersOfTwo();
    hide Pow2;
    SegmentFields(d, p, v);
    ByteHalves(d, 0);
    MiddleByte(d, 0);
    ByteHalves(d, n + 1);
    forall i | 0 <= i < n ensures d[i + 1] % 16 * 16 + d[i + 2] / 16 == p[i] {
      MiddleByte(d, i + 1);
      assert 8 * (i + 1) + 4 == 12 + 8 * i;
    }
  }

  lemma LongHeader(d: seq<nat>, p: seq<nat>, v: nat)
    requires v >= 10 && |p| < 65536 && Octets(d) && Octets(p) && Carries(d, p, v)
    ensures var n := |p|;
      && n + 3 <= |d| && d[0] / 16 == 4 && d[0] % 16 * 4096 + d[1] * 16 + d[2] / 16 == n && d[n + 2] % 16 == 0
      && forall i :: 0 <= i < n ==> d[i + 2] % 16 * 16 + d[i + 3] / 16 == p[i]
  {
    hide NumberAt, BitsAt, Carries, Octets;
    OctetAt(d);
    var n := |p|;
    hide Pow2;
    PowerSixteen();
    SegmentFields(d, p, v);
    ByteHalves(d, 0);
    MiddlePair(d, 0);
    ByteHalves(d, n + 2);
    forall i | 0 <= i < n ensures d[i + 2] % 16 * 16 + d[i + 3] / 16 == p[i] {
      MiddleByte(d, i + 2);
      assert 8 * (i + 2) + 4 == 20 + 8 * i;
    }
  }

  lemma OctetAt(d: seq<nat>)
    requires Octets(d)
    ensures forall i :: 0 <= i < |d| ==> d[i] < 256
  {
  }

  lemma BlocksData(v: nat, payload: seq<nat>, data: seq<seq<nat>>, ecc: seq<seq<nat>>)
    requires 1 <= v <= 10 && QrEncode.Blocks(v, payload, data, ecc)
    ensures var d := Flat(data);
      && |d| == DataCodewords(v) && Octets(d) && Carries(d, payload, v)
      && PadsFrom(d, |payload| + if v <= 9 then 2 else 3)
  {
    hide Flat, DataCodewords, Carries, VersionDb, AllCodewords, Shape, LongBlocks, AllInField, PadsFrom, SegmentBits;
    DataBytes(data);
    SegmentBytes(payload, v);
  }

  lemma SegmentBytes(p: seq<nat>, v: nat)
    ensures |SegmentBits(p, v)| / 8 == |p| + if v <= 9 then 2 else 3
  {
    assert |SegmentBits(p, v)| == 8 + CountWidth(BYTE, v) + 8 * |p|;
  }

  lemma PowerSixteen()
    ensures Pow2(16) == 65536
  {
    PowersOfTwo();
    assert Pow2(10) == 1024 && Pow2(12) == 4096;
    assert Pow2(14) == 16384;
  }

  /** The data codewords of versions 1 to 9: the mode 4, the length, the payload and a zero, all half a byte off, and then
      the pad bytes in turn. */
  lemma DataCodewordsAre(v: nat, payload: seq<nat>, data: seq<seq<nat>>, ecc: seq<seq<nat>>)
    requires 1 <= v <= 9 && |payload| <= 230 && Octets(payload) && QrEncode.Blocks(v, payload, data, ecc)
    ensures var d, n := Flat(data), |payload|;
      && |d| == [19, 34, 55, 80, 108, 136, 156, 194, 232][v - 1] >= n + 2
      && d[0] / 16 == 4 && d[0] % 16 * 16 + d[1] / 16 == n && d[n + 1] % 16 == 0
      && (forall i :: 0 <= i < n ==> d[i + 1] % 16 * 16 + d[i + 2] / 16 == payload[i])
      && (forall i :: n + 2 <= i < |d| ==> d[i] == if (i - n) % 2 == 0 then 0xec else 0x11)
  {
    hide Flat, DataCodewords, Carries, Octets, QrEncode.Blocks;
    BlocksData(v, payload, data, ecc);
    DataTotal(v);
    ShortHeader(Flat(data), payload, v);
  }

  /** Version 10 counts with sixteen bits. */
  lemma DataCodewordsOfTen(payload: seq<nat>, data: seq<seq<nat>>, ecc: seq<seq<nat>>)
    requires |payload| <= 271 && Octets(payload) && QrEncode.Blocks(10, payload, data, ecc)
    ensures var d, n := Flat(data), |payload|;
      && |d| == 274 >= n + 3 && d[0] / 16 == 4 && d[0] % 16 * 4096 + d[1] * 16 + d[2] / 16 == n && d[n + 2] % 16 == 0
      && (forall i :: 0 <= i < n ==> d[i + 2] % 16 * 16 + d[i + 3] / 16 == payload[i])
      && (forall i :: n + 3 <= i < |d| ==> d[i] == if (i - n) % 2 == 1 then 0xec else 0x11)
  {
    hide Flat, DataCodewords, Carries, Octets, QrEncode.Blocks;
    BlocksData(10, payload, data, ecc);
    DataTotal(10);
    LongHeader(Flat(data), payload, 10);
  }

  lemma DataTotal(v: nat)
    requires 1 <= v <= 10
    ensures DataCodewords(v) == [19, 34, 55, 80, 108, 136, 156, 194, 232, 274][v - 1]
  {
  }

  lemma {:induction false} DataBytes(data: seq<seq<nat>>)
    requires AllInField(Tables.Gf256(), data)
    ensures Octets(Flat(data))
  {
    if data != [] {
      DataBytes(data[..|data| - 1]);
    }
  }

  // ---- segments of every mode ------------------------------------------------------------------------------------------------

  lemma {:induction false} PowerSum(n: nat, t: nat)
    ensures Pow2(n + t) == Pow2(n) * Pow2(t)
  {
    if t > 0 {
      PowerSum(n, t - 1);
      assert Pow2(n + t) == 2 * Pow2(n + (t - 1));
    }
  }

  /** n bits inside three bytes, s bits from their start and t bits before their end. */
  lemma Window(b: seq<nat>, j: nat, s: nat, n: nat, t: nat)
    requires j + 2 < |b| && b[j] < 256 && b[j + 1] < 256 && b[j + 2] < 256 && s + n + t == 24
    ensures NumberAt(b, 8 * j + s, n) == (b[j] * 65536 + b[j + 1] * 256 + b[j + 2]) / Pow2(t) % Pow2(n)
  {
    hide NumberAt, Pow2;
    ThreeBytesAt(b, j);
    PowerSum(n, t);
    var at, end := 8 * j + s, 8 * j + s + n;
    NumberSplit(b, 8 * j, s, n + t);
    NumberSplit(b, at, n, t);
    NumberSplit(b, at, 0, n);
    Middle(NumberAt(b, 8 * j, s), NumberAt(b, at, n), NumberAt(b, end, t), Pow2(n), Pow2(t));
  }

  lemma ThreeBytesAt(b: seq<nat>, j: nat)
    requires j + 2 < |b| && b[j] < 256 && b[j + 1] < 256 && b[j + 2] < 256
    ensures NumberAt(b, 8 * j, 24) == b[j] * 65536 + b[j + 1] * 256 + b[j + 2]
  {
    hide NumberAt, Pow2;
    PowersOfTwo();
    ByteHalves(b, j);
    ByteHalves(b, j + 1);
    ByteHalves(b, j + 2);
    NumberSplit(b, 8 * j, 8, 8);
    NumberSplit(b, 8 * j, 16, 8);
  }

  lemma Middle(a: nat, x: nat, l: nat, pn: nat, pt: nat)
    requires x < pn && l < pt
    ensures (a * (pn * pt) + (x * pt + l)) / pt % pn == x
  {
    var k: nat := pn * a;
    assert a * (pn * pt) + (x * pt + l) == pt * (k + x) + l;
    ModUnique(a * (pn * pt) + (x * pt + l), pt, k + x, l);
    ModUnique(k + x, pn, a, x);
  }

  lemma MorePowers()
    ensures Pow2(4) == 16 && Pow2(6) == 64 && Pow2(7) == 128 && Pow2(8) == 256 && Pow2(9) == 512 && Pow2(10) == 1024
    ensures Pow2(11) == 2048 && Pow2(12) == 4096 && Pow2(13) == 8192 && Pow2(14) == 16384 && Pow2(15) == 32768
    ensures Pow2(16) == 65536 && Pow2(17) == 131072 && Pow2(18) == 262144 && Pow2(19) == 524288 && Pow2(20) == 1048576
    ensures Pow2(0) == 1 && Pow2(1) == 2 && Pow2(2) == 4 && Pow2(3) == 8 && Pow2(5) == 32
  {
    PowersOfTwo();
    PowerSixteen();
    assert Pow2(10) == 1024 && Pow2(12) == 4096;
    assert Pow2(13) == 8192 && Pow2(15) == 32768;
    assert Pow2(18) == 262144;
    assert Pow2(20) == 1048576;
  }

  /** Bits of the character count in the four modes, in versions 1 to 9, 10 to 26 and 27 to 40 (Table 3). */
  lemma CountWidths(v: nat, group: nat)
    requires group == if v < 10 then 0 else if v < 27 then 1 else 2
    ensures CountWidth(1, v) == [10, 12, 14][group] && CountWidth(2, v) == [9, 11, 13][group]
    ensures CountWidth(4, v) == [8, 16, 16][group] && CountWidth(8, v) == [8, 10, 12][group]
  {
  }

  /** A byte segment overflows if its bytes and a zero do not fit the 8896 bytes of a payload, underflows if the stream has
      fewer bits than it announces, and is appended otherwise. */
  lemma ByteOutcome(bytes: seq<nat>, dataBits: nat, v: nat, r: Parsed, count: nat)
    requires var width := if v < 10 then 8 else 16;
      r.ptr + width <= dataBits <= 8 * |bytes| && NumberAt(bytes, r.ptr, width) == count && |r.payload| < 8896
    ensures var from, r' := r.ptr + (if v < 10 then 8 else 16), ByteSegment(bytes, dataBits, v, r);
      if |r.payload| + count >= 8896 then r' == r.(status := DataOverflow, ptr := from)
      else if from + 8 * count > dataBits then r' == r.(status := DataUnderflow, ptr := from)
      else
        && r'.status == Success && r'.ptr == from + 8 * count && |r'.payload| == |r.payload| + count
        && r'.payload[..|r.payload|] == r.payload && r'.dataType == r.dataType && r'.eci == r.eci
        && forall i :: 0 <= i < count ==> r'.payload[|r.payload| + i] == NumberAt(bytes, from + 8 * i, 8)
  {
    hide NumberAt;
  }

  /** The digits 01234567, the characters AC-42 and two kanji, in the modes of sections 7.4.3 to 7.4.6 of
      ISO/IEC 18004:2015, one after the other, then a terminator and pad bytes. */
  const EXAMPLE: seq<nat> :=
    [0x10, 0x20, 0x0c, 0x56, 0x61, 0x90, 0x14, 0xe7, 0x73, 0x90, 0xa0, 0x09, 0xb3, 0xfa, 0xaa, 0x00, 0xec, 0x11]

  lemma NumericPart()
    ensures |EXAMPLE| == 18
    ensures NumberAt(EXAMPLE, 0, 4) == 1
    ensures NumberAt(EXAMPLE, 4, 10) == 8
    ensures NumberAt(EXAMPLE, 14, 10) == 12
    ensures NumberAt(EXAMPLE, 24, 10) == 345
    ensures NumberAt(EXAMPLE, 34, 7) == 67
  {
    hide NumberAt;
    MorePowers();
    Window(EXAMPLE, 0, 0, 4, 20);
    Window(EXAMPLE, 0, 4, 10, 10);
    Window(EXAMPLE, 1, 6, 10, 8);
    Window(EXAMPLE, 3, 0, 10, 14);
    Window(EXAMPLE, 4, 2, 7, 15);
  }

  lemma AlphaPart()
    ensures |EXAMPLE| == 18
    ensures NumberAt(EXAMPLE, 41, 4) == 2
    ensures NumberAt(EXAMPLE, 45, 9) == 5
    ensures NumberAt(EXAMPLE, 54, 11) == 462
    ensures NumberAt(EXAMPLE, 65, 11) == 1849
    ensures NumberAt(EXAMPLE, 76, 6) == 2
  {
    hide NumberAt;
    MorePowers();
    Window(EXAMPLE, 5, 1, 4, 19);
    Window(EXAMPLE, 5, 5, 9, 10);
    Window(EXAMPLE, 6, 6, 11, 7);
    Window(EXAMPLE, 8, 1, 11, 12);
    Window(EXAMPLE, 9, 4, 6, 14);
  }

  lemma KanjiPart()
    ensures |EXAMPLE| == 18
    ensures NumberAt(EXAMPLE, 82, 4) == 8
    ensures NumberAt(EXAMPLE, 86, 8) == 2
    ensures NumberAt(EXAMPLE, 94, 13) == 3487
    ensures NumberAt(EXAMPLE, 107, 13) == 6826
    ensures NumberAt(EXAMPLE, 120, 4) == 0
  {
    hide NumberAt;
    MorePowers();
    Window(EXAMPLE, 10, 2, 4, 18);
    Window(EXAMPLE, 10, 6, 8, 10);
    Window(EXAMPLE, 11, 6, 13, 5);
    Window(EXAMPLE, 13, 3, 13, 8);
    Window(EXAMPLE, 15, 0, 4, 20);
  }

  lemma OneChar(alphabet: string, t: nat, k: nat, t': nat, c: nat)
    requires |alphabet| > 0 && k > 0 && t' == t / |alphabet| && c == alphabet[t % |alphabet|] as int
    ensures Chars(alphabet, t, k) == Chars(alphabet, t', k - 1) + [c] && Chars(alphabet, t', 0) == []
  {
  }

  lemma DigitsOfExample()
    ensures Chars(DIGITS, 12, 3) == [0x30, 0x31, 0x32] && Chars(DIGITS, 345, 3) == [0x33, 0x34, 0x35] && Chars(DIGITS, 67, 2) == [0x36, 0x37]
  {
    hide Chars;
    OneChar(DIGITS, 12, 3, 1, 0x32); OneChar(DIGITS, 1, 2, 0, 0x31); OneChar(DIGITS, 0, 1, 0, 0x30);
    OneChar(DIGITS, 345, 3, 34, 0x35); OneChar(DIGITS, 34, 2, 3, 0x34); OneChar(DIGITS, 3, 1, 0, 0x33);
    OneChar(DIGITS, 67, 2, 6, 0x37); OneChar(DIGITS, 6, 1, 0, 0x36);
  }

  lemma CharactersOfExample()
    ensures Chars(ALPHANUMERIC, 462, 2) == [0x41, 0x43] && Chars(ALPHANUMERIC, 1849, 2) == [0x2d, 0x34] && Chars(ALPHANUMERIC, 2, 1) == [0x32]
  {
    hide Chars;
    OneChar(ALPHANUMERIC, 462, 2, 10, 0x43); OneChar(ALPHANUMERIC, 10, 1, 0, 0x41);
    OneChar(ALPHANUMERIC, 1849, 2, 41, 0x34); OneChar(ALPHANUMERIC, 41, 1, 0, 0x2d);
    OneChar(ALPHANUMERIC, 2, 1, 0, 0x32);
  }

  lemma FirstSegment()
    ensures |EXAMPLE| == 18 && NumberAt(EXAMPLE, 0, 4) == 1
    ensures Segment(EXAMPLE, 144, 1, 1, NOTHING.(ptr := 4)) ==
      Parsed(Success, [0x30, 0x31, 0x32, 0x33, 0x34, 0x35, 0x36, 0x37], 0, 41, 0)
  {
    hide NumberAt, Chars;
    NumericPart();
    DigitsOfExample();
    assert [0x30, 0x31, 0x32] + [0x33, 0x34, 0x35] + [0x36, 0x37] == [0x30, 0x31, 0x32, 0x33, 0x34, 0x35, 0x36, 0x37];
  }

  lemma SecondSegment(payload: seq<nat>)
    requires |payload| == 8
    ensures |EXAMPLE| == 18 && NumberAt(EXAMPLE, 41, 4) == 2
    ensures Segment(EXAMPLE, 144, 2, 1, Parsed(Success, payload, 1, 45, 0)) ==
      Parsed(Success, payload + [0x41, 0x43, 0x2d, 0x34, 0x32], 1, 82, 0)
  {
    hide NumberAt, Chars;
    NumericPart();
    AlphaPart();
    CharactersOfExample();
    assert payload + [0x41, 0x43] + [0x2d, 0x34] + [0x32] == payload + [0x41, 0x43, 0x2d, 0x34, 0x32];
  }

  lemma ThirdSegment(payload: seq<nat>)
    requires |payload| == 13
    ensures |EXAMPLE| == 18 && NumberAt(EXAMPLE, 82, 4) == 8 && NumberAt(EXAMPLE, 120, 4) == 0
    ensures Segment(EXAMPLE, 144, 8, 1, Parsed(Success, payload, 2, 86, 0)) ==
      Parsed(Success, payload + [0x93, 0x5f, 0xe4, 0xaa], 2, 120, 0)
  {
    hide NumberAt;
    AlphaPart();
    KanjiPart();
    assert KanjiAt(EXAMPLE, 94, 1) == [0x93, 0x5f];
    assert KanjiAt(EXAMPLE, 94, 2) == [0x93, 0x5f, 0xe4, 0xaa];
  }

  /** What the decoder makes of it in a version 1 symbol. */
  lemma MixedSegments()
    ensures var r := Parse(EXAMPLE, 8 * |EXAMPLE|, 1, NOTHING);
      && r.status == Success && r.dataType == 8 && r.eci == 0
      && r.payload == [0x30, 0x31, 0x32, 0x33, 0x34, 0x35, 0x36, 0x37] + [0x41, 0x43, 0x2d, 0x34, 0x32] + [0x93, 0x5f, 0xe4, 0xaa]
  {
    hide NumberAt, Segment;
    FirstSegment();
    var digits: seq<nat> := [0x30, 0x31, 0x32, 0x33, 0x34, 0x35, 0x36, 0x37];
    SecondSegment(digits);
    ThirdSegment(digits + [0x41, 0x43, 0x2d, 0x34, 0x32]);
    ParseOne(EXAMPLE, 144, 1, NOTHING, 1);
    ParseOne(EXAMPLE, 144, 1, Parsed(Success, digits, 1, 41, 0), 2);
    ParseOne(EXAMPLE, 144, 1, Parsed(Success, digits + [0x41, 0x43, 0x2d, 0x34, 0x32], 2, 82, 0), 8);
  }

  lemma ParseOne(bytes: seq<nat>, dataBits: nat, v: nat, r: Parsed, mode: nat)
    requires r.ptr + 4 <= dataBits <= 8 * |bytes| && |r.payload| < MAX_PAYLOAD && Known(mode) && NumberAt(bytes, r.ptr, 4) == mode
    requires Segment(bytes, dataBits, mode, v, r.(ptr := r.ptr + 4)).status == Success
    ensures Parse(bytes, dataBits, v, r) ==
      Parse(bytes, dataBits, v, Raised(Segment(bytes, dataBits, mode, v, r.(ptr := r.ptr + 4)), mode))
  {
    hide NumberAt, Segment;
  }

  // ---- the order of the stream --------------------------------------------------------------------------------------------

  /** Blocks, data bytes a block and parity bytes a block of level L, as Table 9 of ISO/IEC 18004:2015 lists them; the last
      two of the four blocks of version 10 are one byte longer. */
  lemma BlockTable(v: nat)
    requires 1 <= v <= 10
    ensures var info := VersionDb(v); var p := info.ecc[LEVEL_L];
      && p.ns == [1, 1, 1, 1, 1, 2, 2, 2, 2, 2][v - 1] && p.dw == [19, 34, 55, 80, 108, 68, 78, 97, 116, 68][v - 1]
      && EcLen(p) == [7, 10, 15, 20, 26, 18, 20, 24, 30, 18][v - 1] && LongBlocks(info.dataBytes, p) == if v == 10 then 2 else 0
  {
    TablesAgree(v);
  }

  /** Byte j of block i: blocks lie one after the other in the data codewords and alternate byte by byte in the stream. */
  lemma StreamData(v: nat, payload: seq<nat>, data: seq<seq<nat>>, ecc: seq<seq<nat>>, bc: nat, dw: nat, i: nat, j: nat,
                   from: nat, to: nat)
    requires 1 <= v <= 10 && QrEncode.Blocks(v, payload, data, ecc)
    requires bc == [1, 1, 1, 1, 1, 2, 2, 2, 2, 4][v - 1] && dw == [19, 34, 55, 80, 108, 68, 78, 97, 116, 68][v - 1]
    requires i < bc && j < dw && from == dw * i + j + (if i == 3 then 1 else 0) && to == bc * j + i
    ensures var sent, d := Sent(VersionDb(v).ecc[LEVEL_L], data, ecc), Flat(data);
      from < |d| && to < |sent| && sent[to] == d[from]
  {
    hide QrEncode.Blocks, VersionDb, Sent, Flat, Shape;
    BlocksShape(v, payload, data, ecc);
    DataAt(VersionDb(v).ecc[LEVEL_L], data, ecc, i, j, from, to);
  }

  lemma DataAt(p: RsParams, data: seq<seq<nat>>, ecc: seq<seq<nat>>, i: nat, j: nat, from: nat, to: nat)
    requires Shape(p, data, ecc) && i < |data| && j < p.dw && to == |data| * j + i
    requires from == p.dw * i + j + if i <= p.ns then 0 else i - p.ns
    ensures from < |Flat(data)| && to < |Sent(p, data, ecc)| && Sent(p, data, ecc)[to] == Flat(data)[from]
  {
    hide Sent, Flat;
    SentDataAt(p, data, ecc, i, j);
    FlatAt(p, data, i, j);
  }

  /** The last byte of a long block. */
  lemma StreamLong(payload: seq<nat>, data: seq<seq<nat>>, ecc: seq<seq<nat>>, i: nat)
    requires QrEncode.Blocks(10, payload, data, ecc) && i < 2
    ensures var sent, d := Sent(VersionDb(10).ecc[LEVEL_L], data, ecc), Flat(data);
      |d| == 274 && |sent| == 346 && sent[272 + i] == d[204 + 69 * i]
  {
    hide QrEncode.Blocks, VersionDb, Sent, Flat;
    var p := VersionDb(10).ecc[LEVEL_L];
    BlocksShape(10, payload, data, ecc);
    SentSize(p, data, ecc);
    SentLastAt(p, data, ecc, i + 2);
    FlatAt(p, data, i + 2, 68);
  }

  /** Parity bytes alternate as well, behind all data bytes. */
  lemma StreamParity(v: nat, payload: seq<nat>, data: seq<seq<nat>>, ecc: seq<seq<nat>>, bc: nat, dw: nat, i: nat, j: nat, to: nat)
    requires 1 <= v <= 10 && QrEncode.Blocks(v, payload, data, ecc)
    requires bc == [1, 1, 1, 1, 1, 2, 2, 2, 2, 4][v - 1] && dw == [19, 34, 55, 80, 108, 68, 78, 97, 116, 68][v - 1]
    requires i < bc && j < [7, 10, 15, 20, 26, 18, 20, 24, 30, 18][v - 1]
    requires to == dw * bc + (if v == 10 then 2 else 0) + bc * j + i
    ensures var sent := Sent(VersionDb(v).ecc[LEVEL_L], data, ecc);
      |ecc| == bc && j < |ecc[i]| && to < |sent| && sent[to] == ecc[i][j]
  {
    hide QrEncode.Blocks, VersionDb, Sent, Flat, Shape;
    BlocksShape(v, payload, data, ecc);
    ParityAt(VersionDb(v).ecc[LEVEL_L], data, ecc, i, j, to);
  }

  lemma ParityAt(p: RsParams, data: seq<seq<nat>>, ecc: seq<seq<nat>>, i: nat, j: nat, to: nat)
    requires Shape(p, data, ecc) && i < |data| && j < EcLen(p) && to == p.dw * |data| + (|data| - p.ns) + |data| * j + i
    ensures |ecc| == |data| && j < |ecc[i]| && to < |Sent(p, data, ecc)| && Sent(p, data, ecc)[to] == ecc[i][j]
  {
    hide Sent, Flat;
    SentEccAt(p, data, ecc, i, j);
  }

  lemma BlocksShape(v: nat, payload: seq<nat>, data: seq<seq<nat>>, ecc: seq<seq<nat>>)
    requires 1 <= v <= 10 && QrEncode.Blocks(v, payload, data, ecc)
    ensures var p := VersionDb(v).ecc[LEVEL_L];
      && Shape(p, data, ecc) && |data| == [1, 1, 1, 1, 1, 2, 2, 2, 2, 4][v - 1]
      && p.ns == [1, 1, 1, 1, 1, 2, 2, 2, 2, 2][v - 1] && p.dw == [19, 34, 55, 80, 108, 68, 78, 97, 116, 68][v - 1]
      && EcLen(p) == [7, 10, 15, 20, 26, 18, 20, 24, 30, 18][v - 1]
  {
    hide AllInField, AllCodewords, Carries, PadsFrom, Flat, DataCodewords, VersionDb, SegmentBits, LongBlocks;
    BlockTable(v);
  }

  /** Blocks one after the other. */
  lemma {:induction false} FlatAt(p: RsParams, data: seq<seq<nat>>, i: nat, j: nat)
    requires i < |data| && forall k :: 0 <= k < |data| ==> |data[k]| == DataLen(p, k)
    ensures |Flat(data)| == DataOffset(p, |data|)
    ensures j < DataLen(p, i) ==> DataOffset(p, i) + j < |Flat(data)| && Flat(data)[DataOffset(p, i) + j] == data[i][j]
  {
    hide DataLen;
    var n := |data| - 1;
    OffsetStep(p, n);
    if i < n {
      FlatAt(p, data[..n], i, j);
    } else if n > 0 {
      FlatAt(p, data[..n], 0, 0);
    } else {
      FlatEmpty();
    }
  }

  lemma OffsetStep(p: RsParams, n: nat)
    ensures DataOffset(p, n + 1) == DataOffset(p, n) + DataLen(p, n) && DataOffset(p, 0) == 0
  {
    NextMultiple(p.dw, n);
  }

  // ---- the code ---------------------------------------------------------------------------------------------------------------

  /** The field of the code: doubling, less the polynomial x^8 + x^4 + x^3 + x^2 + 1 on overflow. */
  lemma TimesTwo(x: nat)
    requires x < 256
    ensures Mul(Tables.Gf256(), 2, x) == if x < 128 then 2 * x else Xor(2 * x, 0x11d)
  {
    hide Xor, Mul, Pow, StepN;
    var f := Tables.Gf256();
    OneStep(f, x);
    assert f.poly == 0x11d;
    FirstPowers();
  }

  lemma OneStep(f: Gf, x: nat)
    requires x < f.size
    ensures Mul(f, Pow(f, 1), x) == Step(f, x)
  {
    hide Mul, Pow, Step;
    MulSteps(f, 1, x);
    assert Cut(f, x) == x;
    assert StepN(f, 1, x) == Step(f, StepN(f, 0, x));
  }

  /** The shortest generator polynomial of Table A.1 of ISO/IEC 18004:2015, x^2 + 3x + 2: as a block it is a codeword with
      two parity bytes, and with the parity bytes exchanged it is not. */
  lemma SmallestGenerator()
    ensures Codeword(Tables.Gf256(), [1, 3, 2], 2) && !Codeword(Tables.Gf256(), [1, 2, 3], 2)
  {
    hide Xor, Mul, Pow, Syndrome, Tables.Gf256;
    SmallXors();
    ThreeBytes(1, 3, 2);
    ThreeBytes(1, 2, 3);
    TimesTwo(0);
    TimesTwo(1);
    assert Syndrome(Tables.Gf256(), [1, 2, 3], 1) == 3;
  }

  lemma SmallXors()
    ensures Xor(1, 3) == 2 && Xor(1, 2) == 3 && Xor(2, 3) == 1 && Xor(2, 2) == 0 && Xor(3, 3) == 0 && Xor(0, 3) == 3
  {
  }

  /** A block of three bytes at the first two powers of the generator. */
  lemma ThreeBytes(a: nat, b: nat, c: nat)
    requires a < 256 && b < 256 && c < 256
    ensures var f := Tables.Gf256();
      && Syndrome(f, [a, b, c], 0) == Xor(Xor(a, b), c)
      && Syndrome(f, [a, b, c], 1) == Xor(Mul(f, 2, Xor(Mul(f, 2, a), b)), c)
  {
    hide Xor, Mul, Pow, Syndrome, Tables.Gf256, Horner;
    var f := Tables.Gf256();
    SyndromeIsHorner(f, [a, b, c], 0);
    SyndromeIsHorner(f, [a, b, c], 1);
    PowZeroIsOne(f);
    FirstPowers();
    HornerThree(f, a, b, c, 1);
    HornerThree(f, a, b, c, 2);
    MulOne(f, a);
    AddInField(f, a, b);
    MulOne(f, Xor(a, b));
    MulComm(f, a, 1);
    MulComm(f, Xor(a, b), 1);
  }

  lemma FirstPowers()
    ensures Pow(Tables.Gf256(), 1) == 2
  {
    hide Pow;
    var f := Tables.Gf256();
    PowZeroIsOne(f);
    StepPow(f, 0);
  }

  lemma HornerThree(f: Gf, a: nat, b: nat, c: nat, x: nat)
    ensures Horner(f, [a, b, c], x) == Xor(Mul(f, x, Xor(Mul(f, x, a), b)), c)
  {
    hide Xor, Mul;
    assert [a, b, c][..2] == [a, b] && [a, b][..1] == [a];
    MulZero(f, x);
    XorZero(a);
    assert Horner(f, [a], x) == a;
  }
}
