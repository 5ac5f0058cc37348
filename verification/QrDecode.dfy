/** The decoder from the sampled grid on: format word, mask, data bits, repair, payload. */
module QrDecode {
  import opened Bits
  import opened BitStream
  import opened Galois
  import Tables
  import opened Versions
  import opened Codestream
  import opened Payload
  import opened Segments
  import opened Format
  import opened Geometry
  import Syndromes
  import Grid
  import QrEncode

  const MAX_BITMAP := 3917

  // ---- the sampled grid -------------------------------------------------------------------------------------------------

  /** Module p of the bitmap, eight to a byte, the lowest bit first. */
  function BitmapBit(bitmap: seq<nat>, p: nat): bool
    requires p / 8 < |bitmap|
  {
    Bit(bitmap[p / 8], p % 8)
  }

  function CellNumber(size: nat, x: nat, y: nat): nat {
    y * size + x
  }

  lemma CellNumberBound(v: nat, x: nat, y: nat)
    requires v <= 40 && x < Size(v) && y < Size(v)
    ensures CellNumber(Size(v), x, y) / 8 < MAX_BITMAP
  {
    ProductBound(y, Size(v));
  }

  lemma ProductBound(y: nat, s: nat)
    requires y <= 176 && s <= 177
    ensures y * s <= 176 * 177
  {
    assert (176 - y) * s >= 0;
    assert (176 - y) * s == 176 * s - y * s;
  }

  /** The module in row y and column x. */
  function GridBit(v: nat, bitmap: seq<nat>, x: nat, y: nat): bool
    requires v <= 40 && |bitmap| == MAX_BITMAP && x < Size(v) && y < Size(v)
  {
    CellNumberBound(v, x, y);
    BitmapBit(bitmap, CellNumber(Size(v), x, y))
  }

  /** b | (1 << k). */
  function OrBit(b: nat, k: nat): nat {
    if Bit(b, k) then b else Xor(b, Pow2(k))
  }

  lemma OrBitAt(b: nat, k: nat, j: nat)
    ensures Bit(OrBit(b, k), j) == (Bit(b, j) || j == k)
  {
    hide Bit, Xor;
    BitXor(b, Pow2(k), j);
    BitOfPower(k, j);
  }

  /** Modules are numbered row by row. */
  lemma CellNumberOrder(v: nat, r: nat, c: nat, y: nat, x: nat)
    requires c < Size(v) && x <= Size(v) && (r < y || (r == y && c < x))
    ensures CellNumber(Size(v), c, r) < CellNumber(Size(v), x, y)
  {
    if r < y {
      RowsAhead(r, y, Size(v));
    }
  }

  lemma {:induction false} RowsAhead(r: nat, y: nat, n: nat)
    requires r < y
    ensures r * n + n <= y * n
  {
    assert y * n == (y - 1) * n + n;
    if r < y - 1 {
      RowsAhead(r, y - 1, n);
    }
  }

  lemma CellNumberSteps(v: nat, y: nat)
    ensures CellNumber(Size(v), 0, 0) == 0 && CellNumber(Size(v), Size(v), y) == CellNumber(Size(v), 0, y + 1)
  {
    assert (y + 1) * Size(v) == y * Size(v) + Size(v);
  }

  lemma OrBitmap(bitmap: seq<nat>, i: nat, p: nat)
    requires i / 8 < |bitmap| && p / 8 < |bitmap|
    ensures BitmapBit(bitmap[i / 8 := OrBit(bitmap[i / 8], i % 8)], p) == (BitmapBit(bitmap, p) || p == i)
  {
    hide Bit, OrBit;
    if p / 8 == i / 8 {
      OrBitAt(bitmap[i / 8], i % 8, p % 8);
    }
  }

  /** Every module before row y, column x is in the bitmap, and nothing else. */
  ghost predicate Sampled(v: nat, bitmap: seq<nat>, sample: (nat, nat) -> bool, y: nat, x: nat)
    requires v <= 40 && |bitmap| == MAX_BITMAP
  {
    && (forall r: nat, c: nat {:trigger GridBit(v, bitmap, c, r)} :: r < Size(v) && c < Size(v) && (r < y || (r == y && c < x)) ==>
          GridBit(v, bitmap, c, r) == sample(r, c))
    && (forall p: nat {:trigger BitmapBit(bitmap, p)} :: CellNumber(Size(v), x, y) <= p < 8 * MAX_BITMAP ==> !BitmapBit(bitmap, p))
  }

  lemma SampledStep(v: nat, bitmap: seq<nat>, sample: (nat, nat) -> bool, y: nat, x: nat, bitmap': seq<nat>)
    requires v <= 40 && |bitmap| == MAX_BITMAP && y < Size(v) && x < Size(v) && Sampled(v, bitmap, sample, y, x)
    requires CellNumber(Size(v), x, y) / 8 < MAX_BITMAP
    requires bitmap' == if sample(y, x) then
                var i := CellNumber(Size(v), x, y); bitmap[i / 8 := OrBit(bitmap[i / 8], i % 8)] else bitmap
    ensures Sampled(v, bitmap', sample, y, x + 1)
  {
    hide BitmapBit, OrBit, CellNumber, Size;
    var n, i := Size(v), CellNumber(Size(v), x, y);
    forall p: nat | p < 8 * MAX_BITMAP ensures BitmapBit(bitmap', p) == (BitmapBit(bitmap, p) || (p == i && sample(y, x))) {
      if sample(y, x) {
        OrBitmap(bitmap, i, p);
      }
    }
    CellNumberOrder(v, y, x, y, x + 1);
    forall r: nat, c: nat | r < n && c < n && (r < y || (r == y && c < x + 1)) ensures GridBit(v, bitmap', c, r) == sample(r, c) {
      CellNumberBound(v, c, r);
      if r < y || c < x {
        CellNumberOrder(v, r, c, y, x);
        assert GridBit(v, bitmap, c, r) == sample(r, c);
      }
    }
  }

  /** Packs the sampled modules into the bitmap. */
  method Extract(v: nat, sample: (nat, nat) -> bool) returns (bitmap: array<nat>)
    requires 1 <= v <= 40
    ensures fresh(bitmap) && bitmap.Length == MAX_BITMAP
    ensures forall r: nat, c: nat {:trigger GridBit(v, bitmap[..], c, r)} :: r < Size(v) && c < Size(v) ==>
      GridBit(v, bitmap[..], c, r) == sample(r, c)
  {
    hide GridBit, BitmapBit, OrBit, CellNumber, Sampled;
    bitmap := new nat[MAX_BITMAP](_ => 0);
    var i: nat := 0;
    CellNumberSteps(v, 0);
    SampledNothing(v, bitmap[..], sample);
    for y := 0 to Size(v)
      invariant Sampled(v, bitmap[..], sample, y, 0) && i == CellNumber(Size(v), 0, y)
    {
      for x := 0 to Size(v)
        invariant Sampled(v, bitmap[..], sample, y, x) && i == CellNumber(Size(v), x, y)
      {
        CellNumberBound(v, x, y);
        SampledStep(v, bitmap[..], sample, y, x,
                    if sample(y, x) then bitmap[..][i / 8 := OrBit(bitmap[i / 8], i % 8)] else bitmap[..]);
        if sample(y, x) {
          bitmap[i / 8] := OrBit(bitmap[i / 8], i % 8);
        }
        NextNumber(v, x, y);
        i := i + 1;
      }
      CellNumberSteps(v, y);
      SampledNextRow(v, bitmap[..], sample, y);
    }
    AllSampled(v, bitmap[..], sample);
  }

  lemma NextNumber(v: nat, x: nat, y: nat)
    ensures CellNumber(Size(v), x + 1, y) == CellNumber(Size(v), x, y) + 1
  {
  }

  lemma SampledNothing(v: nat, bitmap: seq<nat>, sample: (nat, nat) -> bool)
    requires v <= 40 && |bitmap| == MAX_BITMAP && forall i :: 0 <= i < |bitmap| ==> bitmap[i] == 0
    ensures Sampled(v, bitmap, sample, 0, 0)
  {
    hide Bit;
    forall p: nat | p < 8 * MAX_BITMAP ensures !BitmapBit(bitmap, p) {
      BitOfZero(p % 8);
    }
  }

  lemma SampledNextRow(v: nat, bitmap: seq<nat>, sample: (nat, nat) -> bool, y: nat)
    requires v <= 40 && |bitmap| == MAX_BITMAP && Sampled(v, bitmap, sample, y, Size(v))
    ensures Sampled(v, bitmap, sample, y + 1, 0)
  {
    hide GridBit, BitmapBit;
    CellNumberSteps(v, y);
    hide CellNumber;
  }

  lemma AllSampled(v: nat, bitmap: seq<nat>, sample: (nat, nat) -> bool)
    requires v <= 40 && |bitmap| == MAX_BITMAP && Sampled(v, bitmap, sample, Size(v), 0)
    ensures forall r: nat, c: nat {:trigger GridBit(v, bitmap, c, r)} :: r < Size(v) && c < Size(v) ==>
      GridBit(v, bitmap, c, r) == sample(r, c)
  {
    hide GridBit, BitmapBit, CellNumber;
  }

  // ---- format ---------------------------------------------------------------------------------------------------------------

  /** Coordinates of format bit i in the first copy. */
  function Xs(i: nat): nat
    requires i < 15
  {
    [8, 8, 8, 8, 8, 8, 8, 8, 7, 5, 4, 3, 2, 1, 0][i]
  }

  function Ys(i: nat): nat
    requires i < 15
  {
    [0, 1, 2, 3, 4, 5, 7, 8, 8, 8, 8, 8, 8, 8, 8][i]
  }

  /** Both programs agree where the first copy is. */
  lemma FirstCopyPlaces(i: nat)
    requires i < 15
    ensures Xs(i) == Grid.Col1(i) && Ys(i) == Grid.Row1(i)
  {
  }

  /** Format bit i as seen in one of the copies. */
  function Seen(v: nat, bitmap: seq<nat>, copy: nat, i: nat): bool
    requires 1 <= v <= 40 && |bitmap| == MAX_BITMAP && i < 15
  {
    if copy == 0 then GridBit(v, bitmap, Xs(i), Ys(i))
    else if i < 8 then GridBit(v, bitmap, Size(v) - 1 - i, 8)
    else GridBit(v, bitmap, 8, Size(v) - 15 + i)
  }

  /** The low n bits of the word are format bits from `from` on. */
  ghost predicate ShowsBits(v: nat, bitmap: seq<nat>, copy: nat, word: nat, from: nat, n: nat)
    requires 1 <= v <= 40 && |bitmap| == MAX_BITMAP && from + n <= 15
  {
    word < Pow2(n) && forall j: nat :: j < n ==> Bit(word, j) == Seen(v, bitmap, copy, from + j)
  }

  lemma ShiftIn(v: nat, bitmap: seq<nat>, copy: nat, word: nat, from: nat, n: nat)
    requires 1 <= v <= 40 && |bitmap| == MAX_BITMAP && 0 < from && from + n <= 15
    requires ShowsBits(v, bitmap, copy, word, from, n)
    ensures ShowsBits(v, bitmap, copy, 2 * word + if Seen(v, bitmap, copy, from - 1) then 1 else 0, from - 1, n + 1)
  {
    hide Bit, Seen;
    var word' := 2 * word + if Seen(v, bitmap, copy, from - 1) then 1 else 0;
    assert word' / 2 == word;
    BitLow(word');
    forall j: nat | j < n + 1 ensures Bit(word', j) == Seen(v, bitmap, copy, from - 1 + j) {
      if j > 0 {
        BitHigher(word', j - 1);
      }
    }
  }

  lemma NoBitsShown(v: nat, bitmap: seq<nat>, copy: nat)
    requires 1 <= v <= 40 && |bitmap| == MAX_BITMAP
    ensures ShowsBits(v, bitmap, copy, 0, 15, 0)
  {
  }

  /** The format word of one copy, before repair. */
  method ReadFormatWord(v: nat, bitmap: array<nat>, which: nat) returns (format: nat)
    requires 1 <= v <= 40 && bitmap.Length == MAX_BITMAP && which < 2
    ensures ShowsBits(v, bitmap[..], which, format, 0, 15)
  {
    hide GridBit, Bit, ShowsBits;
    ghost var seen := bitmap[..];
    NoBitsShown(v, seen, which);
    format := 0;
    if which == 1 {
      for i := 0 to 7
        invariant ShowsBits(v, seen, which, format, 15 - i, i)
      {
        ShiftIn(v, seen, which, format, 15 - i, i);
        format := 2 * format + if GridBit(v, bitmap[..], 8, Size(v) - 1 - i) then 1 else 0;
      }
      for i := 0 to 8
        invariant ShowsBits(v, seen, which, format, 8 - i, 7 + i)
      {
        ShiftIn(v, seen, which, format, 8 - i, 7 + i);
        format := 2 * format + if GridBit(v, bitmap[..], Size(v) - 8 + i, 8) then 1 else 0;
      }
    } else {
      for i := 15 downto 0
        invariant ShowsBits(v, seen, which, format, i, 15 - i)
      {
        ShiftIn(v, seen, which, format, i + 1, 14 - i);
        format := 2 * format + if GridBit(v, bitmap[..], Xs(i), Ys(i)) then 1 else 0;
      }
    }
  }

  /** The received copy is at most three modules away from the word for level and mask `fdata`. */
  ghost predicate FormatReadable(v: nat, bitmap: seq<nat>, copy: nat, fdata: nat)
    requires 1 <= v <= 40 && |bitmap| == MAX_BITMAP
  {
    FormatDamage(v, bitmap, copy, fdata, 15) <= 3
  }

  /** Wrong modules among the first n of a format copy. */
  ghost function FormatDamage(v: nat, bitmap: seq<nat>, copy: nat, fdata: nat, n: nat): nat
    requires 1 <= v <= 40 && |bitmap| == MAX_BITMAP && n <= 15
  {
    if n == 0 then 0
    else
      var wrong := Seen(v, bitmap, copy, n - 1) != Bit(Xor(FormatWord(fdata), FORMAT_MASK), n - 1);
      FormatDamage(v, bitmap, copy, fdata, n - 1) + if wrong then 1 else 0
  }

  lemma FormatDamageStep(v: nat, bitmap: seq<nat>, copy: nat, fdata: nat, n: nat)
    requires 1 <= v <= 40 && |bitmap| == MAX_BITMAP && n < 15
    ensures var wrong := Seen(v, bitmap, copy, n) != Bit(Xor(FormatWord(fdata), FORMAT_MASK), n);
      FormatDamage(v, bitmap, copy, fdata, n + 1) == FormatDamage(v, bitmap, copy, fdata, n) + if wrong then 1 else 0
  {
  }

  /** Wrong modules are wrong bits of the word after the fixed pattern is removed. */
  lemma {:induction false} DamageIsDistance(v: nat, bitmap: seq<nat>, copy: nat, fdata: nat, format: nat, n: nat)
    requires 1 <= v <= 40 && |bitmap| == MAX_BITMAP && n <= 15 && ShowsBits(v, bitmap, copy, format, 0, 15)
    ensures |Syndromes.Wrong(WordBlock(FormatWord(fdata)), WordBlock(Xor(format, FORMAT_MASK)), n)|
         == FormatDamage(v, bitmap, copy, fdata, n)
  {
    hide Bit, Seen, FormatWord, Xor, WordBlock, FormatDamage;
    var c, r := WordBlock(FormatWord(fdata)), WordBlock(Xor(format, FORMAT_MASK));
    if n > 0 {
      var j := n - 1;
      DamageIsDistance(v, bitmap, copy, fdata, format, j);
      FormatDamageStep(v, bitmap, copy, fdata, j);
      BlockBits(FormatWord(fdata), Xor(format, FORMAT_MASK), j);
      BitXor(format, FORMAT_MASK, j);
      BitXor(FormatWord(fdata), FORMAT_MASK, j);
      assert Bit(format, j) == Seen(v, bitmap, copy, 0 + j);
    } else {
      NoFormatDamage(v, bitmap, copy, fdata);
    }
  }

  lemma NoFormatDamage(v: nat, bitmap: seq<nat>, copy: nat, fdata: nat)
    requires 1 <= v <= 40 && |bitmap| == MAX_BITMAP
    ensures FormatDamage(v, bitmap, copy, fdata, 0) == 0
  {
  }

  /** Reads and repairs one copy of the format word. */
  method ReadFormat(v: nat, bitmap: array<nat>, which: nat, ghost fdata: nat) returns (ok: bool, level: nat, mask: nat)
    requires 1 <= v <= 40 && bitmap.Length == MAX_BITMAP && which < 2
    ensures ok ==> level < 4 && mask < 8
    ensures fdata < 32 && FormatReadable(v, bitmap[..], which, fdata) ==> ok && level == fdata / 8 && mask == fdata % 8
  {
    hide Xor, Bit, FormatWord, FormatOk, WordBlock, ShowsBits, FormatDamage;
    level, mask := 0, 0;
    var format := ReadFormatWord(v, bitmap, which);
    ShownSmall(v, bitmap[..], which, format);
    var word := Xor(format, 0x5412);
    if fdata < 32 && FormatReadable(v, bitmap[..], which, fdata) {
      FormatWordOk(fdata);
      DamageIsDistance(v, bitmap[..], which, fdata, format, 15);
      assert NearFormat(FormatWord(fdata), word);
    }
    var u;
    ok, u := CorrectFormat(word);
    if !ok {
      return;
    }
    var found := u / 1024;
    level := found / 8;
    mask := found % 8;
  }

  lemma ShownSmall(v: nat, bitmap: seq<nat>, copy: nat, format: nat)
    requires 1 <= v <= 40 && |bitmap| == MAX_BITMAP && ShowsBits(v, bitmap, copy, format, 0, 15)
    ensures Xor(format, FORMAT_MASK) < 32768
  {
    hide Xor, Bit;
    assert Pow2(15) == 32768 by { PowersOfTwo(); assert Pow2(10) == 1024; assert Pow2(12) == 4096; }
    PowerIsPow2(15);
    XorLess(32768, format, FORMAT_MASK);
  }

  // ---- data bits ----------------------------------------------------------------------------------------------------------------

  predicate MaskBit(mask: nat, i: nat, j: nat) {
    match mask
    case 0 => (i + j) % 2 == 0
    case 1 => i % 2 == 0
    case 2 => j % 3 == 0
    case 3 => (i + j) % 3 == 0
    case 4 => (i / 2 + j / 3) % 2 == 0
    case 5 => i * j % 2 + i * j % 3 == 0
    case 6 => (i * j % 2 + i * j % 3) % 2 == 0
    case 7 => (i * j % 3 + (i + j) % 2) % 2 == 0
    case _ => false
  }

  /** The two programs use the same eight masks. */
  lemma MasksAgree(mask: nat, i: nat, j: nat)
    requires mask < 8
    ensures MaskBit(mask, i, j) == QrEncode.MaskBit(mask, i, j)
  {
  }

  /** The data bit shown at step t of pair k. */
  ghost function DataBit(v: nat, bitmap: seq<nat>, mask: nat, k: nat, t: nat): bool
    requires 1 <= v <= 40 && |bitmap| == MAX_BITMAP && k < Pairs(v) && t < 2 * Size(v)
  {
    GridBit(v, bitmap, Col(v, k, t), Row(v, k, t)) != MaskBit(mask, Row(v, k, t), Col(v, k, t))
  }

  /** A byte buffer holding the data bits before step t of pair k, in order, and nothing else. */
  ghost predicate Holds(v: nat, bitmap: seq<nat>, mask: nat, raw: seq<nat>, k: nat, t: nat)
    requires 1 <= v <= 40 && |bitmap| == MAX_BITMAP && k < Pairs(v) && t <= 2 * Size(v)
  {
    && |raw| == MAX_PAYLOAD && (forall i :: 0 <= i < |raw| ==> raw[i] < 256)
    && (forall k': nat, t': nat {:trigger Free(v, k', t')} ::
          k' < Pairs(v) && t' < 2 * Size(v) && QrEncode.Earlier(k', t', k, t) && Free(v, k', t') ==>
            StreamBit(raw, Pos(v, k', t')) == DataBit(v, bitmap, mask, k', t'))
    && (forall i: nat {:trigger StreamBit(raw, i)} :: Pos(v, k, t) <= i < 8 * |raw| ==> !StreamBit(raw, i))
  }

  lemma {:induction false} FreeInMonotone(v: nat, k: nat, t': nat, t: nat)
    requires 1 <= v <= 40 && k < Pairs(v) && t' <= t <= 2 * Size(v)
    ensures FreeIn(v, k, t') <= FreeIn(v, k, t)
  {
    hide Free;
    if t' < t {
      FreeInMonotone(v, k, t', t - 1);
    }
  }

  lemma {:induction false} FreeUpToMonotone(v: nat, k': nat, k: nat)
    requires 1 <= v <= 40 && k' <= k <= Pairs(v)
    ensures FreeUpTo(v, k') <= FreeUpTo(v, k)
  {
    hide FreeIn, Free;
    if k' < k {
      FreeUpToMonotone(v, k', k - 1);
    }
  }

  /** Earlier data modules carry earlier bits. */
  lemma PosEarlier(v: nat, k': nat, t': nat, k: nat, t: nat)
    requires 1 <= v <= 40 && k' < Pairs(v) && k < Pairs(v) && t' < 2 * Size(v) && t <= 2 * Size(v)
    requires QrEncode.Earlier(k', t', k, t) && Free(v, k', t')
    ensures Pos(v, k', t') < Pos(v, k, t)
  {
    hide FreeIn, FreeUpTo, Free;
    PosStep(v, k', t');
    if k' == k {
      FreeInMonotone(v, k, t' + 1, t);
    } else {
      FreeInMonotone(v, k', t' + 1, 2 * Size(v));
      PosNextPair(v, k');
      FreeUpToMonotone(v, k' + 1, k);
    }
  }

  lemma SetStreamBit(raw: seq<nat>, i: nat, j: nat)
    requires i < 8 * |raw| && j < 8 * |raw|
    ensures StreamBit(raw[i / 8 := SetBit(raw[i / 8], i % 8)], j) == (j == i || StreamBit(raw, j))
  {
    hide BitAt, SetBit;
    if i / 8 == j / 8 {
      SetBitAt(raw[i / 8], i % 8, j % 8);
    }
  }

  /** The buffer after one more step. */
  ghost function AfterBit(v: nat, bitmap: seq<nat>, mask: nat, raw: seq<nat>, k: nat, t: nat): seq<nat>
    requires 1 <= v <= 40 && |bitmap| == MAX_BITMAP && k < Pairs(v) && t < 2 * Size(v) && |raw| == MAX_PAYLOAD
  {
    PosInBuffer(v, k, t);
    var i := Pos(v, k, t);
    if Free(v, k, t) && DataBit(v, bitmap, mask, k, t) then raw[i / 8 := SetBit(raw[i / 8], i % 8)] else raw
  }

  lemma PosInBuffer(v: nat, k: nat, t: nat)
    requires 1 <= v <= 40 && k < Pairs(v) && t <= 2 * Size(v)
    ensures Pos(v, k, t) < 8 * MAX_PAYLOAD
  {
    hide Pos;
    assert Pos(v, k, t) <= 354 * (k + 1);
  }

  lemma HoldsStep(v: nat, bitmap: seq<nat>, mask: nat, raw: seq<nat>, k: nat, t: nat)
    requires 1 <= v <= 40 && |bitmap| == MAX_BITMAP && k < Pairs(v) && t < 2 * Size(v)
    requires Holds(v, bitmap, mask, raw, k, t)
    ensures Holds(v, bitmap, mask, AfterBit(v, bitmap, mask, raw, k, t), k, t + 1)
  {
    hide Free, Pos, DataBit, StreamBit, SetBit;
    var raw' := AfterBit(v, bitmap, mask, raw, k, t);
    var i := Pos(v, k, t);
    PosInBuffer(v, k, t);
    PosStep(v, k, t);
    SetBitByte(raw[i / 8], i % 8);
    var one := Free(v, k, t) && DataBit(v, bitmap, mask, k, t);
    forall j: nat | j < 8 * MAX_PAYLOAD ensures StreamBit(raw', j) == ((one && j == i) || StreamBit(raw, j)) {
      if one {
        SetStreamBit(raw, i, j);
      }
    }
    forall k': nat, t': nat | k' < Pairs(v) && t' < 2 * Size(v) && QrEncode.Earlier(k', t', k, t + 1) && Free(v, k', t')
      ensures StreamBit(raw', Pos(v, k', t')) == DataBit(v, bitmap, mask, k', t')
    {
      PosInBuffer(v, k', t');
      if k' != k || t' != t {
        PosEarlier(v, k', t', k, t);
      }
    }
  }

  lemma HoldsNextPair(v: nat, bitmap: seq<nat>, mask: nat, raw: seq<nat>, k: nat)
    requires 1 <= v <= 40 && |bitmap| == MAX_BITMAP && k + 1 < Pairs(v)
    requires Holds(v, bitmap, mask, raw, k, 2 * Size(v))
    ensures Holds(v, bitmap, mask, raw, k + 1, 0)
  {
    hide Free, Pos, DataBit, StreamBit;
    PosNextPair(v, k);
  }

  lemma HoldsNothing(v: nat, bitmap: seq<nat>, mask: nat, raw: seq<nat>)
    requires 1 <= v <= 40 && |bitmap| == MAX_BITMAP && |raw| == MAX_PAYLOAD && forall i :: 0 <= i < |raw| ==> raw[i] == 0
    ensures Holds(v, bitmap, mask, raw, 0, 0) && Pos(v, 0, 0) == 0
  {
    forall i: nat | i < 8 * |raw| ensures !StreamBit(raw, i) {
      NoBits(8, i % 8);
    }
  }

  /** Appends one module's bit. */
  method ReadBit(v: nat, bitmap: array<nat>, mask: nat, raw: array<nat>, dataBits: nat, i: nat, j: nat, ghost k: nat, ghost t: nat)
    returns (next: nat)
    requires 1 <= v <= 40 && bitmap.Length == MAX_BITMAP && raw != bitmap && k < Pairs(v) && t < 2 * Size(v)
    requires i == Row(v, k, t) && j == Col(v, k, t) && Free(v, k, t)
    requires Holds(v, bitmap[..], mask, raw[..], k, t) && dataBits == Pos(v, k, t)
    modifies raw
    ensures Holds(v, bitmap[..], mask, raw[..], k, t + 1) && next == Pos(v, k, t + 1)
  {
    hide Free, Pos, Holds, GridBit, MaskBit, SetBit;
    PosInBuffer(v, k, t);
    PosStep(v, k, t);
    HoldsLength(v, bitmap[..], mask, raw[..], k, t);
    HoldsStep(v, bitmap[..], mask, raw[..], k, t);
    var bitpos, bytepos := dataBits % 8, dataBits / 8;
    var value := GridBit(v, bitmap[..], j, i);
    if MaskBit(mask, i, j) {
      value := !value;
    }
    if value {
      raw[bytepos] := SetBit(raw[bytepos], bitpos);
    }
    assert raw[..] == AfterBit(v, bitmap[..], mask, old(raw[..]), k, t);
    next := dataBits + 1;
  }

  lemma HoldsLength(v: nat, bitmap: seq<nat>, mask: nat, raw: seq<nat>, k: nat, t: nat)
    requires 1 <= v <= 40 && |bitmap| == MAX_BITMAP && k < Pairs(v) && t <= 2 * Size(v) && Holds(v, bitmap, mask, raw, k, t)
    ensures |raw| == MAX_PAYLOAD && forall i :: 0 <= i < |raw| ==> raw[i] < 256
  {
  }

  /** One step: reserved modules are passed over. */
  method ReadStep(v: nat, bitmap: array<nat>, mask: nat, raw: array<nat>, dataBits: nat, i: nat, j: nat, ghost k: nat, ghost t: nat)
    returns (next: nat)
    requires 1 <= v <= 40 && bitmap.Length == MAX_BITMAP && raw != bitmap && k < Pairs(v) && t < 2 * Size(v)
    requires i == Row(v, k, t) && j == Col(v, k, t)
    requires Holds(v, bitmap[..], mask, raw[..], k, t) && dataBits == Pos(v, k, t)
    modifies raw
    ensures Holds(v, bitmap[..], mask, raw[..], k, t + 1) && next == Pos(v, k, t + 1)
  {
    hide Pos, Holds, Reserved;
    next := dataBits;
    var reserved := ReservedCell(v, i, j);
    if !reserved {
      next := ReadBit(v, bitmap, mask, raw, dataBits, i, j, k, t);
    } else {
      HoldsLength(v, bitmap[..], mask, raw[..], k, t);
      HoldsStep(v, bitmap[..], mask, raw[..], k, t);
      PosStep(v, k, t);
    }
  }

  /** Two columns at a time from the right, turning at the edges. */
  method ReadData(v: nat, bitmap: array<nat>, mask: nat, raw: array<nat>) returns (dataBits: nat)
    requires 1 <= v <= 40 && bitmap.Length == MAX_BITMAP && raw != bitmap && raw.Length == MAX_PAYLOAD
    requires forall i :: 0 <= i < raw.Length ==> raw[i] == 0
    modifies raw
    ensures Holds(v, bitmap[..], mask, raw[..], Pairs(v) - 1, 2 * Size(v)) && dataBits == FreeUpTo(v, Pairs(v))
  {
    hide Holds, Pos, FreeUpTo, Cursor, Row, Col, Size;
    var size := Size(v);
    FirstCursor(v);
    HoldsNothing(v, bitmap[..], mask, raw[..]);
    ghost var k: nat, vert: nat := 0, 0;
    ghost var seen := bitmap[..];
    var y, x, dir: int := size - 1, size - 1, -1;
    dataBits := 0;
    while x > 0
      invariant k <= Pairs(v) && vert < size && bitmap[..] == seen && Cursor(v, k, vert, x, y, dir)
      invariant k < Pairs(v) ==> Holds(v, seen, mask, raw[..], k, 2 * vert) && dataBits == Pos(v, k, 2 * vert)
      invariant k == Pairs(v) ==> Holds(v, seen, mask, raw[..], k - 1, 2 * size) && dataBits == FreeUpTo(v, k)
      decreases Pairs(v) - k, size - vert
    {
      CursorModule(v, k, vert, x, y, dir);
      NextCursor(v, k, vert, x, y, dir);
      if x == 6 {
        x := x - 1;
      }
      dataBits := ReadStep(v, bitmap, mask, raw, dataBits, y, x, k, 2 * vert);
      dataBits := ReadStep(v, bitmap, mask, raw, dataBits, y, x - 1, k, 2 * vert + 1);
      y := y + dir;
      vert := vert + 1;
      if y < 0 || y >= size {
        dir := -dir;
        x := x - 2;
        y := y + dir;
        PosNextPair(v, k);
        if k + 1 < Pairs(v) {
          HoldsNextPair(v, seen, mask, raw[..], k);
        }
        k, vert := k + 1, 0;
      }
    }
    LastCursor(v, k, vert, x, y, dir);
  }

  /** Row vert of column pair k: the columns x and x - 1, or 5 and 4 where x is still on the timing column. */
  predicate Cursor(v: nat, k: nat, vert: nat, x: int, y: int, dir: int) {
    && k <= Pairs(v) && vert < Size(v)
    && x == (if k <= 2 * v + 5 then (if k == 2 * v + 5 && vert > 0 then 5 else Size(v) - 1 - 2 * k) else Size(v) - 2 - 2 * k)
    && (k < Pairs(v) ==> y == (if k % 2 == 0 then Size(v) - 1 - vert else vert) && dir == if k % 2 == 0 then -1 else 1)
  }

  lemma FirstCursor(v: nat)
    ensures Cursor(v, 0, 0, Size(v) - 1, Size(v) - 1, -1)
  {
  }

  lemma LastCursor(v: nat, k: nat, vert: nat, x: int, y: int, dir: int)
    requires Cursor(v, k, vert, x, y, dir) && x <= 0
    ensures k == Pairs(v)
  {
  }

  lemma CursorModule(v: nat, k: nat, vert: nat, x: int, y: int, dir: int)
    requires Cursor(v, k, vert, x, y, dir) && x > 0
    ensures k < Pairs(v) && 2 * vert + 1 < 2 * Size(v)
    ensures y == Row(v, k, 2 * vert) == Row(v, k, 2 * vert + 1)
    ensures var x' := if x == 6 then x - 1 else x; x' == Col(v, k, 2 * vert) && x' - 1 == Col(v, k, 2 * vert + 1)
  {
    assert (2 * vert + 1) / 2 == vert && (2 * vert + 1) % 2 == 1;
  }

  /** The next row of the pair, or the first row of the next pair in the other direction. */
  lemma NextCursor(v: nat, k: nat, vert: nat, x: int, y: int, dir: int)
    requires Cursor(v, k, vert, x, y, dir) && x > 0
    ensures var x' := if x == 6 then x - 1 else x;
      if 0 <= y + dir < Size(v) then vert + 1 < Size(v) && Cursor(v, k, vert + 1, x', y + dir, dir)
      else vert + 1 == Size(v) && Cursor(v, k + 1, 0, x' - 2, y, -dir)
  {
  }

  // ---- the whole decoder ------------------------------------------------------------------------------------------------------------

  /** What was read: level and mask of the format word, the raw bits, and the blocks after repair. */
  datatype Reading = Reading(level: nat, mask: nat, raw: seq<nat>, fixed: seq<seq<nat>>)

  /** The result is what the data parts of the repaired blocks say, all of them codewords of the version and level. */
  ghost predicate Says(v: nat, level: nat, fixed: seq<seq<nat>>, status: Status, dataType: nat, payload: seq<nat>, eci: nat)
    requires 1 <= v <= 40 && level < 4
  {
    var info := VersionDb(v);
    var p := info.ecc[level];
    && |fixed| == p.ns + LongBlocks(info.dataBytes, p) && AllFixed(Tables.Gf256(), p, fixed)
    && var flat := Flat(DataParts(p, fixed, |fixed|));
       var r := Parse(flat, 8 * |flat|, v, NOTHING);
       r.status == status && r.dataType == dataType && r.payload == payload && r.eci == eci
  }

  /** The blocks begin with the byte segment of `sent`, and every block read is close enough to be repaired. */
  ghost predicate StreamDecodable(v: nat, level: nat, raw: seq<nat>, blocks: seq<seq<nat>>, sent: seq<nat>)
    requires 1 <= v <= 40 && level < 4
  {
    && Repairs(v, level, raw, blocks)
    && var flat := Flat(DataParts(VersionDb(v).ecc[level], blocks, |blocks|)); BeginsWith(flat, 8 * |flat|, sent, v)
  }

  ghost predicate Repairs(v: nat, level: nat, raw: seq<nat>, blocks: seq<seq<nat>>)
    requires 1 <= v <= 40 && level < 4
  {
    var info := VersionDb(v);
    var p := info.ecc[level];
    var bc := p.ns + LongBlocks(info.dataBytes, p);
    |blocks| == bc && Repairable(Tables.Gf256(), p, raw, blocks, bc)
  }

  /** The buffer as the zigzag leaves it. */
  ghost predicate RawBits(v: nat, bitmap: seq<nat>, mask: nat, raw: seq<nat>)
    requires 1 <= v <= 40 && |bitmap| == MAX_BITMAP
  {
    Holds(v, bitmap, mask, raw, Pairs(v) - 1, 2 * Size(v))
  }

  /** Repair and payload decoding of the bits read. */
  method DecodeStream(v: nat, level: nat, payload: array<nat>, ghost blocks: seq<seq<nat>>, ghost sent: seq<nat>)
    returns (status: Status, dataType: nat, length: nat, eci: nat, ghost fixed: seq<seq<nat>>)
    requires 1 <= v <= 40 && level < 4 && payload.Length == MAX_PAYLOAD && forall i :: 0 <= i < payload.Length ==> payload[i] < 256
    modifies payload
    ensures length < MAX_PAYLOAD
    ensures status == DataEcc || Says(v, level, fixed, status, dataType, payload[..length], eci)
    ensures status == Success ==> payload[length] == 0
    ensures StreamDecodable(v, level, old(payload[..]), blocks, sent) ==>
      status == Success && dataType == 4 && payload[..length] == sent
  {
    hide VersionDb, Repairable, BeginsWith, Flat, DataParts, Pow, Xor, EccOffset, IsField, Parse, AllFixed;
    hide Says, StreamDecodable, ParamsOk, LongBlocks, InfoOk, Tables.Gf256, BitsAt;
    dataType, length, eci := 0, 0, 0;
    var info := VersionDb(v);
    InfoFacts(info);
    var p := info.ecc[level];
    var out := new nat[MAX_PAYLOAD](_ => 0);
    var f := Tables.Gf256();
    ghost var raw := payload[..];
    var ok, dataBits;
    ok, dataBits, fixed := CodestreamEcc(payload, info.dataBytes, p, f, out, blocks);
    DecodableRepairs(v, level, raw, blocks, sent);
    if !ok {
      return DataEcc, 0, 0, 0, [];
    }
    ghost var bytes := out[..];
    ghost var bc := p.ns + LongBlocks(info.dataBytes, p);
    assert Flattened(v, level, fixed, bytes, dataBits);
    var ds := new DataStream(out, dataBits);
    var data := new Decoded(payload);
    assert payload[..0] == [];
    status := DecodePayload(v, data, ds);
    dataType, length, eci := data.dataType, data.payloadLen, data.eci;
    StreamSays(v, level, fixed, bytes, dataBits, Parsed(status, payload[..length], dataType, ds.ptr, eci));
    if StreamDecodable(v, level, raw, blocks, sent) {
      DecodableSays(v, level, raw, blocks, sent, bytes, dataBits);
    }
  }

  /** What repair leaves at the front of the buffer. */
  ghost predicate Flattened(v: nat, level: nat, blocks: seq<seq<nat>>, out: seq<nat>, dataBits: nat)
    requires 1 <= v <= 40 && level < 4
  {
    var info := VersionDb(v);
    var p := info.ecc[level];
    var bc := p.ns + LongBlocks(info.dataBytes, p);
    && |blocks| == bc && dataBits == 8 * EccOffset(p, bc) <= 8 * |out| && out[..dataBits / 8] == Flat(DataParts(p, blocks, bc))
  }

  lemma FlatPrefix(v: nat, level: nat, blocks: seq<seq<nat>>, out: seq<nat>, dataBits: nat)
    requires 1 <= v <= 40 && level < 4 && Flattened(v, level, blocks, out, dataBits)
    ensures var flat := Flat(DataParts(VersionDb(v).ecc[level], blocks, |blocks|));
      dataBits == 8 * |flat| && Parse(out, dataBits, v, NOTHING) == Parse(flat, dataBits, v, NOTHING)
  {
    hide VersionDb, Flat, DataParts, EccOffset, Parse, LongBlocks, BitsAt, NumberAt;
    assert InfoOk(VersionDb(v));
    var flat := out[..dataBits / 8];
    ParsePrefix(flat, out, dataBits, v, NOTHING);
  }

  lemma StreamSays(v: nat, level: nat, fixed: seq<seq<nat>>, out: seq<nat>, dataBits: nat, r: Parsed)
    requires 1 <= v <= 40 && level < 4 && Flattened(v, level, fixed, out, dataBits)
    requires AllFixed(Tables.Gf256(), VersionDb(v).ecc[level], fixed)
    requires dataBits <= 8 * |out| && r == Parse(out, dataBits, v, NOTHING)
    ensures Says(v, level, fixed, r.status, r.dataType, r.payload, r.eci)
  {
    hide VersionDb, Flat, DataParts, EccOffset, Parse, AllFixed;
    FlatPrefix(v, level, fixed, out, dataBits);
  }

  lemma DecodableSays(v: nat, level: nat, raw: seq<nat>, blocks: seq<seq<nat>>, sent: seq<nat>, out: seq<nat>, dataBits: nat)
    requires 1 <= v <= 40 && level < 4 && StreamDecodable(v, level, raw, blocks, sent)
    requires Flattened(v, level, blocks, out, dataBits) && dataBits <= 8 * |out|
    ensures var r := Parse(out, dataBits, v, NOTHING); r.status == Success && r.payload == sent && r.dataType == 4
  {
    hide VersionDb, Flat, DataParts, EccOffset, Parse, Repairable, BeginsWith;
    FlatPrefix(v, level, blocks, out, dataBits);
    SegmentParses(Flat(DataParts(VersionDb(v).ecc[level], blocks, |blocks|)), dataBits, sent, v);
  }

  lemma DecodableRepairs(v: nat, level: nat, raw: seq<nat>, blocks: seq<seq<nat>>, sent: seq<nat>)
    requires 1 <= v <= 40 && level < 4
    ensures StreamDecodable(v, level, raw, blocks, sent) ==> Repairs(v, level, raw, blocks)
  {
    hide Repairs;
  }

  lemma InfoFacts(info: VersionInfo)
    requires InfoOk(info)
    ensures |info.ecc| == 4 && info.dataBytes <= 3706 && forall l :: 0 <= l < 4 ==> ParamsOk(info.dataBytes, info.ecc[l])
  {
    hide ParamsOk;
  }

  /** Decodes a sampled symbol.

      `first` tells whether the first format copy could be repaired; `got` is what was read.  Any result that is not an error
      of size, format or repair is what codewords of the version say.  If the copy in use is at most three modules away from
      the word `fdata` and the stream is repairable, the payload `sent` comes out as one byte segment. */
  method QuircDecode(size: int, bitmap: array<nat>, ghost fdata: nat, ghost blocks: seq<seq<nat>>, ghost sent: seq<nat>)
    returns (status: Status, dataType: nat, payload: seq<nat>, eci: nat, ghost first: bool, ghost got: Reading)
    requires bitmap.Length == MAX_BITMAP
    ensures status == InvalidGridSize <==> size > 177 || (size - 17) % 4 != 0
    ensures status == InvalidVersion <==> size <= 177 && (size - 17) % 4 == 0 && size < 21
    ensures 21 <= size <= 177 && (size - 17) % 4 == 0 ==>
      var v := (size - 17) / 4;
      && (status == FormatEcc ==> !first && (fdata < 32 ==>
            !FormatReadable(v, bitmap[..], 0, fdata) && !FormatReadable(v, bitmap[..], 1, fdata)))
      && (status != FormatEcc ==>
            && got.level < 4 && RawBits(v, bitmap[..], got.mask, got.raw)
            && (status == DataEcc || Says(v, got.level, got.fixed, status, dataType, payload, eci)))
      && (fdata < 32 && FormatReadable(v, bitmap[..], 0, fdata) ==> first)
      && (fdata < 32 && FormatReadable(v, bitmap[..], if first then 0 else 1, fdata) ==>
            && status != FormatEcc && got.level == fdata / 8 && got.mask == fdata % 8
            && (StreamDecodable(v, fdata / 8, got.raw, blocks, sent) ==>
                  status == Success && dataType == 4 && payload == sent))
  {
    hide Holds, StreamDecodable, FormatReadable, FreeUpTo, Says;
    dataType, payload, eci, first, got := 0, [], 0, false, Reading(0, 0, [], []);
    if size > 177 {
      return InvalidGridSize, 0, [], 0, false, got;
    }
    if (size - 17) % 4 != 0 {
      return InvalidGridSize, 0, [], 0, false, got;
    }
    if (size - 17) / 4 < 1 || (size - 17) / 4 > 40 {
      return InvalidVersion, 0, [], 0, false, got;
    }
    var buffer := new nat[MAX_PAYLOAD](_ => 0);
    var v := (size - 17) / 4;
    var ok, level, mask := ReadFormat(v, bitmap, 0, fdata);
    first := ok;
    if !ok {
      ok, level, mask := ReadFormat(v, bitmap, 1, fdata);
    }
    if !ok {
      status := FormatEcc;
      return;
    }
    var _ := ReadData(v, bitmap, mask, buffer);
    ghost var raw := buffer[..];
    HoldsLength(v, bitmap[..], mask, raw, Pairs(v) - 1, 2 * Size(v));
    ghost var fixed;
    var length;
    status, dataType, length, eci, fixed := DecodeStream(v, level, buffer, blocks, sent);
    payload := buffer[..length];
    got := Reading(level, mask, raw, fixed);
    SaysStatus(v, level, fixed, status, dataType, payload, eci);
  }

  lemma SaysStatus(v: nat, level: nat, fixed: seq<seq<nat>>, status: Status, dataType: nat, payload: seq<nat>, eci: nat)
    requires 1 <= v <= 40 && level < 4
    ensures Says(v, level, fixed, status, dataType, payload, eci) ==> status in {Success, DataOverflow, DataUnderflow}
  {
    hide VersionDb, AllFixed, Flat, DataParts;
  }
}
