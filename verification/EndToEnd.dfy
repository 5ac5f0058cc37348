/** From payload to payload: the decoder recovers what the encoder drew, also from a symbol with flipped modules. */
module EndToEnd {
  import opened BitStream
  import Tables
  import opened Polynomials
  import opened Syndromes
  import opened Versions
  import Codestream
  import opened Payload
  import opened Segments
  import Format
  import opened Geometry
  import Grid
  import opened QrEncode
  import opened QrDecode
  import GridCapacity

  type Damage = set<(nat, nat)>

  /** The bitmap shows the matrix with the damaged modules inverted. */
  ghost predicate ShowsDamaged(v: nat, bitmap: seq<nat>, m: Grid.Matrix, damage: Damage)
    requires 1 <= v <= 40 && |bitmap| == MAX_BITMAP
  {
    forall r: nat, c: nat {:trigger GridBit(v, bitmap, c, r)} :: r < Size(v) && c < Size(v) ==>
      GridBit(v, bitmap, c, r) == (Grid.Cell(m, r, c) != ((r, c) in damage))
  }

  // ---- how much damage is harmless ----------------------------------------------------------------------------------------

  /** Where format bit i is in one of the copies. */
  function FormatModule(v: nat, copy: nat, i: nat): (nat, nat)
    requires v >= 1 && i < 15
  {
    if copy == 0 then (Grid.Row1(i), Grid.Col1(i)) else (Grid.Row2(Size(v), i), Grid.Col2(Size(v), i))
  }

  /** Damaged modules among the first n of a format copy. */
  function FormatHits(v: nat, damage: Damage, copy: nat, n: nat): nat
    requires v >= 1 && n <= 15
  {
    if n == 0 then 0 else FormatHits(v, damage, copy, n - 1) + if FormatModule(v, copy, n - 1) in damage then 1 else 0
  }

  /** Some module of codeword b is damaged. */
  ghost predicate Hit(v: nat, damage: Damage, b: nat)
    requires 1 <= v <= 40
  {
    exists k: nat, t: nat {:trigger Free(v, k, t)} :: k < Pairs(v) && t < 2 * Size(v) && Free(v, k, t)
      && Pos(v, k, t) / 8 == b && (Row(v, k, t), Col(v, k, t)) in damage
  }

  /** Damaged codewords among the last n of block i. */
  ghost function BlockHits(v: nat, damage: Damage, p: RsParams, bc: nat, i: nat, n: nat): nat
    requires 1 <= v <= 40 && p.dw <= p.bs && bc >= p.ns && n <= Codestream.DataLen(p, i) + Codestream.EcLen(p)
  {
    if n == 0 then 0
    else
      var j := Codestream.DataLen(p, i) + Codestream.EcLen(p) - n;
      BlockHits(v, damage, p, bc, i, n - 1) + if Hit(v, damage, Codestream.Place(p, bc, i, j)) then 1 else 0
  }

  /** At most three modules of the format copy in use, and in each block no more codewords than half its parity; one less in
      the long blocks of version 10, where the decoder misreads one codeword by itself. */
  ghost predicate Light(v: nat, damage: Damage, copy: nat)
    requires 1 <= v <= 10
  {
    FormatHits(v, damage, copy, 15) <= 3 && LightData(v, damage)
  }

  ghost predicate LightData(v: nat, damage: Damage)
    requires 1 <= v <= 10
  {
    var info := VersionDb(v);
    var p := info.ecc[LEVEL_L];
    var bc := p.ns + LongBlocks(info.dataBytes, p);
    forall i: nat {:trigger Codestream.DataLen(p, i)} :: i < bc ==>
         2 * (BlockHits(v, damage, p, bc, i, Codestream.DataLen(p, i) + Codestream.EcLen(p)) + if i < p.ns then 0 else 1)
           <= Codestream.EcLen(p)
  }

  lemma {:induction false} NoFormatHits(v: nat, copy: nat, n: nat)
    requires v >= 1 && n <= 15
    ensures FormatHits(v, {}, copy, n) == 0
  {
    if n > 0 {
      NoFormatHits(v, copy, n - 1);
    }
  }

  lemma {:induction false} NoBlockHits(v: nat, p: RsParams, bc: nat, i: nat, n: nat)
    requires 1 <= v <= 40 && p.dw <= p.bs && bc >= p.ns && n <= Codestream.DataLen(p, i) + Codestream.EcLen(p)
    ensures BlockHits(v, {}, p, bc, i, n) == 0
  {
    hide Free, Codestream.Place;
    if n > 0 {
      NoBlockHits(v, p, bc, i, n - 1);
    }
  }

  lemma ParityLarge(v: nat)
    requires 1 <= v <= 10
    ensures var p := VersionDb(v).ecc[LEVEL_L]; p.dw + 7 <= p.bs
  {
  }

  /** An undamaged symbol is light. */
  lemma UndamagedIsLight(v: nat, copy: nat)
    requires 1 <= v <= 10
    ensures Light(v, {}, copy)
  {
    hide VersionDb, FormatHits, BlockHits, Hit;
    var info := VersionDb(v);
    var p := info.ecc[LEVEL_L];
    var bc := p.ns + LongBlocks(info.dataBytes, p);
    ParityLarge(v);
    NoFormatHits(v, copy, 15);
    forall i: nat | i < bc ensures BlockHits(v, {}, p, bc, i, Codestream.DataLen(p, i) + Codestream.EcLen(p)) == 0 {
      NoBlockHits(v, p, bc, i, Codestream.DataLen(p, i) + Codestream.EcLen(p));
    }
  }

  // ---- format -----------------------------------------------------------------------------------------------------------------

  lemma {:induction false} FormatDamageIsHits(v: nat, bitmap: seq<nat>, m: Grid.Matrix, mask: nat, sent: seq<nat>,
                                              damage: Damage, copy: nat, n: nat)
    requires 1 <= v <= 40 && |bitmap| == MAX_BITMAP && n <= 15
    requires Shows(v, m, mask, sent) && ShowsDamaged(v, bitmap, m, damage)
    ensures FormatDamage(v, bitmap, copy, 8 + mask, n) == FormatHits(v, damage, copy, n)
  {
    hide Shows, ShowsDamaged, FormatDamage, Format.Bit, Format.FormatWord;
    if n > 0 {
      FormatDamageIsHits(v, bitmap, m, mask, sent, damage, copy, n - 1);
      FormatBitHit(v, bitmap, m, mask, sent, damage, copy, n - 1);
      FormatDamageStep(v, bitmap, copy, 8 + mask, n - 1);
    } else {
      NoFormatDamage(v, bitmap, copy, 8 + mask);
    }
  }

  lemma NoFormatDamage(v: nat, bitmap: seq<nat>, copy: nat, fdata: nat)
    requires 1 <= v <= 40 && |bitmap| == MAX_BITMAP
    ensures FormatDamage(v, bitmap, copy, fdata, 0) == 0
  {
  }

  /** A format bit is seen wrong exactly where its module is damaged. */
  lemma FormatBitHit(v: nat, bitmap: seq<nat>, m: Grid.Matrix, mask: nat, sent: seq<nat>, damage: Damage, copy: nat, i: nat)
    requires 1 <= v <= 40 && |bitmap| == MAX_BITMAP && i < 15
    requires Shows(v, m, mask, sent) && ShowsDamaged(v, bitmap, m, damage)
    ensures Seen(v, bitmap, copy, i) == (Format.Bit(Grid.FormatBits(mask), i) != (FormatModule(v, copy, i) in damage))
  {
    hide Grid.Cell, Grid.IsSquare, GridBit, Format.Bit, Format.FormatWord, Free;
    var at := FormatModule(v, copy, i);
    if copy == 0 {
      FirstCopyPlaces(i);
      assert Grid.Cell(m, Grid.Row1(i), Grid.Col1(i)) == Format.Bit(Grid.FormatBits(mask), i);
    } else {
      assert Grid.Cell(m, Grid.Row2(Size(v), i), Grid.Col2(Size(v), i)) == Format.Bit(Grid.FormatBits(mask), i);
    }
    assert GridBit(v, bitmap, at.1, at.0) == (Grid.Cell(m, at.0, at.1) != (at in damage));
  }

  // ---- data bits -----------------------------------------------------------------------------------------------------------------

  /** Every bit of the stream has its module. */
  lemma FindInPair(v: nat, k: nat, n: nat, i: nat) returns (t: nat)
    requires 1 <= v <= 40 && k < Pairs(v) && n <= 2 * Size(v) && FreeUpTo(v, k) <= i < Pos(v, k, n)
    ensures t < n && Free(v, k, t) && Pos(v, k, t) == i
  {
    hide Free, FreeUpTo;
    if i == Pos(v, k, n - 1) {
      t := n - 1;
    } else {
      t := FindInPair(v, k, n - 1, i);
    }
  }

  lemma FindModule(v: nat, n: nat, i: nat) returns (k: nat, t: nat)
    requires 1 <= v <= 40 && n <= Pairs(v) && i < FreeUpTo(v, n)
    ensures k < n && t < 2 * Size(v) && Free(v, k, t) && Pos(v, k, t) == i
  {
    hide Free, FreeIn, Pos;
    if i < FreeUpTo(v, n - 1) {
      k, t := FindModule(v, n - 1, i);
    } else {
      PosNextPair(v, n - 1);
      k := n - 1;
      t := FindInPair(v, k, 2 * Size(v), i);
    }
  }

  /** What the decoder read, against what the encoder sent. */
  ghost predicate Received(v: nat, bitmap: seq<nat>, m: Grid.Matrix, mask: nat, sent: seq<nat>, damage: Damage, raw: seq<nat>)
    requires 1 <= v <= 40 && |bitmap| == MAX_BITMAP
  {
    && mask < 8 && Shows(v, m, mask, sent) && ShowsDamaged(v, bitmap, m, damage) && RawBits(v, bitmap, mask, raw)
    && 8 * |sent| <= FreeUpTo(v, Pairs(v)) && |sent| <= |raw| == Codestream.MAX_PAYLOAD
    && (forall b :: 0 <= b < |sent| ==> sent[b] < 256) && (forall b :: 0 <= b < |raw| ==> raw[b] < 256)
  }

  lemma ReceivedBit(v: nat, bitmap: seq<nat>, m: Grid.Matrix, mask: nat, sent: seq<nat>, damage: Damage, raw: seq<nat>,
                    k: nat, t: nat)
    requires 1 <= v <= 40 && |bitmap| == MAX_BITMAP && Received(v, bitmap, m, mask, sent, damage, raw)
    requires k < Pairs(v) && t < 2 * Size(v) && Free(v, k, t) && (Row(v, k, t), Col(v, k, t)) !in damage
    requires Pos(v, k, t) < 8 * |sent|
    ensures StreamBit(raw, Pos(v, k, t)) == StreamBit(sent, Pos(v, k, t))
  {
    hide Grid.Cell, Grid.IsSquare, GridBit, Free, Pos, Row, Col, QrDecode.MaskBit, QrEncode.MaskBit, StreamBit;
    hide Format.Bit, Format.FormatWord;
    var r, c := Row(v, k, t), Col(v, k, t);
    MasksAgree(mask, r, c);
    assert Earlier(k, t, Pairs(v) - 1, 2 * Size(v));
    assert StreamBit(raw, Pos(v, k, t)) == DataBit(v, bitmap, mask, k, t);
    assert GridBit(v, bitmap, c, r) == Grid.Cell(m, r, c);
  }

  /** A codeword without a damaged module arrives intact. */
  lemma ReceivedByte(v: nat, bitmap: seq<nat>, m: Grid.Matrix, mask: nat, sent: seq<nat>, damage: Damage, raw: seq<nat>, b: nat)
    requires 1 <= v <= 40 && |bitmap| == MAX_BITMAP && Received(v, bitmap, m, mask, sent, damage, raw)
    requires b < |sent| && !Hit(v, damage, b)
    ensures raw[b] == sent[b]
  {
    hide Shows, ShowsDamaged, RawBits, Free, Pos, Row, Col, BitAt, FreeUpTo;
    forall j | 0 <= j < 8 ensures BitAt(raw[b], j) == BitAt(sent[b], j) {
      var i := 8 * b + j;
      var k, t := FindModule(v, Pairs(v), i);
      ReceivedBit(v, bitmap, m, mask, sent, damage, raw, k, t);
      assert i / 8 == b && i % 8 == j;
    }
    SameBitsSameByte(raw[b], sent[b]);
  }

  /** Every byte of a block lies inside the stream sent. */
  lemma PlaceSent(p: RsParams, data: seq<seq<nat>>, ecc: seq<seq<nat>>, i: nat, j: nat)
    requires Codestream.Shape(p, data, ecc) && i < |data| && j < Codestream.DataLen(p, i) + Codestream.EcLen(p)
    ensures var b := Codestream.Place(p, |data|, i, j);
      b < |Codestream.Sent(p, data, ecc)| && Codestream.Sent(p, data, ecc)[b] == (data[i] + ecc[i])[j]
  {
    hide Codestream.At, Codestream.Columns, Codestream.Sent, Codestream.EccOffset;
    if j == p.dw && i >= p.ns {
      Codestream.SentLastAt(p, data, ecc, i);
    } else if j < Codestream.DataLen(p, i) {
      Codestream.SentDataAt(p, data, ecc, i, j);
    } else {
      Codestream.SentEccAt(p, data, ecc, i, j - Codestream.DataLen(p, i));
    }
  }

  /** A block has no more wrong bytes than damaged codewords. */
  lemma {:induction false} WrongAreHits(v: nat, bitmap: seq<nat>, m: Grid.Matrix, mask: nat, damage: Damage, raw: seq<nat>,
                                        p: RsParams, data: seq<seq<nat>>, ecc: seq<seq<nat>>, i: nat, n: nat)
    requires 1 <= v <= 40 && |bitmap| == MAX_BITMAP && Codestream.Shape(p, data, ecc) && i < |data|
    requires Received(v, bitmap, m, mask, Codestream.Sent(p, data, ecc), damage, raw)
    requires n <= Codestream.DataLen(p, i) + Codestream.EcLen(p)
    ensures |Wrong(data[i] + ecc[i], Codestream.Placed(p, raw, |data|, i), n)| <= BlockHits(v, damage, p, |data|, i, n)
  {
    hide Received, Codestream.Place, Codestream.Sent, Codestream.Placed, Hit;
    if n > 0 {
      WrongAreHits(v, bitmap, m, mask, damage, raw, p, data, ecc, i, n - 1);
      var j := Codestream.DataLen(p, i) + Codestream.EcLen(p) - n;
      if !Hit(v, damage, Codestream.Place(p, |data|, i, j)) {
        UnhitByte(v, bitmap, m, mask, damage, raw, p, data, ecc, i, j);
      }
    }
  }

  lemma UnhitByte(v: nat, bitmap: seq<nat>, m: Grid.Matrix, mask: nat, damage: Damage, raw: seq<nat>,
                  p: RsParams, data: seq<seq<nat>>, ecc: seq<seq<nat>>, i: nat, j: nat)
    requires 1 <= v <= 40 && |bitmap| == MAX_BITMAP && Codestream.Shape(p, data, ecc) && i < |data|
    requires Received(v, bitmap, m, mask, Codestream.Sent(p, data, ecc), damage, raw)
    requires j < Codestream.DataLen(p, i) + Codestream.EcLen(p) && !Hit(v, damage, Codestream.Place(p, |data|, i, j))
    ensures Codestream.Placed(p, raw, |data|, i)[j] == (data[i] + ecc[i])[j]
  {
    hide Received, Codestream.Place, Codestream.Sent, Codestream.Placed, Hit;
    PlaceSent(p, data, ecc, i, j);
    var b := Codestream.Place(p, |data|, i, j);
    ReceivedByte(v, bitmap, m, mask, Codestream.Sent(p, data, ecc), damage, raw, b);
    ReceivedLength(v, bitmap, m, mask, Codestream.Sent(p, data, ecc), damage, raw);
  }

  lemma ReceivedLength(v: nat, bitmap: seq<nat>, m: Grid.Matrix, mask: nat, sent: seq<nat>, damage: Damage, raw: seq<nat>)
    requires 1 <= v <= 40 && |bitmap| == MAX_BITMAP && Received(v, bitmap, m, mask, sent, damage, raw)
    ensures |sent| <= |raw|
  {
  }

  // ---- the stream as a whole ---------------------------------------------------------------------------------------------------

  lemma {:induction false} ColumnBytes(blocks: seq<seq<nat>>, j: nat)
    requires Codestream.AllInField(Tables.Gf256(), blocks)
    ensures InFieldAll(Tables.Gf256(), Codestream.Column(blocks, j))
  {
    if blocks != [] {
      ColumnBytes(blocks[..|blocks| - 1], j);
      assert InFieldAll(Tables.Gf256(), blocks[|blocks| - 1]);
    }
  }

  lemma {:induction false} ColumnsBytes(blocks: seq<seq<nat>>, n: nat)
    requires Codestream.AllInField(Tables.Gf256(), blocks)
    ensures InFieldAll(Tables.Gf256(), Codestream.Columns(blocks, n))
  {
    hide Codestream.Column;
    if n > 0 {
      ColumnsBytes(blocks, n - 1);
      ColumnBytes(blocks, n - 1);
    }
  }

  lemma SentFacts(v: nat, payload: seq<nat>, data: seq<seq<nat>>, ecc: seq<seq<nat>>)
    requires 1 <= v <= 10 && Blocks(v, payload, data, ecc)
    ensures var sent := Codestream.Sent(VersionDb(v).ecc[LEVEL_L], data, ecc);
      && |sent| == VersionDb(v).dataBytes && 8 * |sent| <= FreeUpTo(v, Pairs(v))
      && forall b :: 0 <= b < |sent| ==> sent[b] < 256
  {
    hide VersionDb, Codestream.At, Codestream.EccOffset, Codestream.AllCodewords, Codestream.Sent, FreeUpTo;
    hide Codestream.AllInField, Codestream.DataLen, Carries, Capacity, DataCodewords, LongBlocks;
    var info := VersionDb(v);
    var p := info.ecc[LEVEL_L];
    Codestream.SentSize(p, data, ecc);
    Codestream.SymbolSize(info.dataBytes, p);
    GridCapacity.CodewordsFit(v);
    SentBytes(p, data, ecc);
  }

  lemma SentBytes(p: RsParams, data: seq<seq<nat>>, ecc: seq<seq<nat>>)
    requires Codestream.AllInField(Tables.Gf256(), data) && Codestream.AllInField(Tables.Gf256(), ecc) && p.dw <= p.bs
    ensures forall b :: 0 <= b < |Codestream.Sent(p, data, ecc)| ==> Codestream.Sent(p, data, ecc)[b] < 256
  {
    hide Codestream.Columns, Codestream.AllInField;
    ColumnsBytes(data, if |data| > p.ns then p.dw + 1 else p.dw);
    ColumnsBytes(ecc, Codestream.EcLen(p));
  }

  lemma PayloadSegment(v: nat, payload: seq<nat>, flat: seq<nat>)
    requires 1 <= v <= 10 && |payload| <= Capacity(v) && Carries(flat, payload, v)
    requires forall i :: 0 <= i < |payload| ==> payload[i] < 256
    ensures BeginsWith(flat, 8 * |flat|, payload, v)
  {
    hide SegmentBits, HeadBits, BitsAt, BitsOf, NumberAt, Pow2;
    PowersOfTwo();
    CarriesBegins(flat, payload, v);
    CountRoom();
    assert Capacity(v) <= 271 && (v < 10 ==> Capacity(v) < 256);
  }

  lemma CountRoom()
    ensures Pow2(8) == 256 && Pow2(16) == 65536
  {
    PowersOfTwo();
    assert Pow2(12) == 16 * Pow2(8);
    assert Pow2(16) == 16 * Pow2(12);
  }

  lemma CarriesBegins(flat: seq<nat>, payload: seq<nat>, v: nat)
    requires Carries(flat, payload, v)
    ensures var head := HeadBits(BYTE, |payload|, v, BytesBits(payload));
      && |head| + 4 <= 8 * |flat| && BitsAt(flat, 0, |head|) == head && NumberAt(flat, |head|, 4) == 0
  {
    hide BitsOf, BytesBits, BitsAt, NumberAt;
    PowersOfTwo();
    var head, all := HeadBits(BYTE, |payload|, v, BytesBits(payload)), SegmentBits(payload, v);
    assert all[0..|head|] == head && all[|head|..|head| + 4] == BitsOf(0, 4);
    PieceAt(flat, 0, all, 0, |head|);
    FieldAt(flat, 0, all, |head|, 0, 4);
  }

  lemma IsReceived(v: nat, payload: seq<nat>, m: Grid.Matrix, mask: nat, data: seq<seq<nat>>, ecc: seq<seq<nat>>,
                   damage: Damage, bitmap: seq<nat>, raw: seq<nat>)
    requires 1 <= v <= 10 && |bitmap| == MAX_BITMAP && mask < 8 && Blocks(v, payload, data, ecc)
    requires Shows(v, m, mask, Codestream.Sent(VersionDb(v).ecc[LEVEL_L], data, ecc))
    requires ShowsDamaged(v, bitmap, m, damage) && RawBits(v, bitmap, mask, raw)
    ensures Received(v, bitmap, m, mask, Codestream.Sent(VersionDb(v).ecc[LEVEL_L], data, ecc), damage, raw)
  {
    hide VersionDb, Codestream.Sent, FreeUpTo, Shows, ShowsDamaged, Holds, Blocks;
    assert InfoOk(VersionDb(v)) && VersionDb(v).dataBytes <= 3706;
    SentFacts(v, payload, data, ecc);
    HoldsLength(v, bitmap, mask, raw, Pairs(v) - 1, 2 * Size(v));
  }

  /** Light damage is tolerable, block by block. */
  lemma LightIsTolerable(v: nat, m: Grid.Matrix, mask: nat, p: RsParams, data: seq<seq<nat>>, ecc: seq<seq<nat>>,
                         damage: Damage, bitmap: seq<nat>, raw: seq<nat>)
    requires 1 <= v <= 40 && |bitmap| == MAX_BITMAP && Codestream.Shape(p, data, ecc)
    requires Received(v, bitmap, m, mask, Codestream.Sent(p, data, ecc), damage, raw)
    requires forall i: nat {:trigger Codestream.DataLen(p, i)} :: i < |data| ==>
      2 * (BlockHits(v, damage, p, |data|, i, Codestream.DataLen(p, i) + Codestream.EcLen(p)) + if i < p.ns then 0 else 1)
        <= Codestream.EcLen(p)
    ensures Codestream.Tolerable(p, raw, Codestream.Joined(data, ecc))
  {
    hide Received, BlockHits, Codestream.Sent, Wrong;
    var blocks := Codestream.Joined(data, ecc);
    forall i | 0 <= i < |blocks|
      ensures 2 * (Distance(blocks[i], Codestream.Placed(p, raw, |blocks|, i)) + if i < p.ns then 0 else 1) <= Codestream.EcLen(p)
    {
      WrongAreHits(v, bitmap, m, mask, damage, raw, p, data, ecc, i, |blocks[i]|);
    }
  }

  /** Lightly damaged, the stream is repairable and carries the payload. */
  lemma Recoverable(v: nat, payload: seq<nat>, m: Grid.Matrix, mask: nat, data: seq<seq<nat>>, ecc: seq<seq<nat>>,
                    damage: Damage, bitmap: seq<nat>, raw: seq<nat>)
    requires 1 <= v <= 10 && |bitmap| == MAX_BITMAP && mask < 8
    requires |payload| <= Capacity(v) && forall i :: 0 <= i < |payload| ==> payload[i] < 256
    requires Blocks(v, payload, data, ecc) && Shows(v, m, mask, Codestream.Sent(VersionDb(v).ecc[LEVEL_L], data, ecc))
    requires ShowsDamaged(v, bitmap, m, damage) && RawBits(v, bitmap, mask, raw) && LightData(v, damage)
    ensures StreamDecodable(v, LEVEL_L, raw, Codestream.Joined(data, ecc), payload)
  {
    hide VersionDb, Codestream.Sent, Codestream.AllCodewords, Codestream.Flat, Repairs, BeginsWith, Carries, Capacity, PadsFrom;
    hide Shows, ShowsDamaged, RawBits, LightData, Codestream.AllInField, DataCodewords, SegmentBits;
    Repaired(v, payload, m, mask, data, ecc, damage, bitmap, raw);
    PayloadSegment(v, payload, Codestream.Flat(data));
    Codestream.JoinedParts(VersionDb(v).ecc[LEVEL_L], data, ecc);
  }

  /** Every block read is within the repair radius. */
  lemma Repaired(v: nat, payload: seq<nat>, m: Grid.Matrix, mask: nat, data: seq<seq<nat>>, ecc: seq<seq<nat>>,
                 damage: Damage, bitmap: seq<nat>, raw: seq<nat>)
    requires 1 <= v <= 10 && |bitmap| == MAX_BITMAP && mask < 8
    requires Blocks(v, payload, data, ecc) && Shows(v, m, mask, Codestream.Sent(VersionDb(v).ecc[LEVEL_L], data, ecc))
    requires ShowsDamaged(v, bitmap, m, damage) && RawBits(v, bitmap, mask, raw) && LightData(v, damage)
    ensures Repairs(v, LEVEL_L, raw, Codestream.Joined(data, ecc))
  {
    hide VersionDb, Codestream.Sent, Codestream.AllCodewords, Codestream.Repairable, Codestream.Flat, Received;
    hide Shows, ShowsDamaged, BlockHits, FormatHits, Carries, Capacity, RawBits, Codestream.Tolerable, PadsFrom, SegmentBits;
    hide Codestream.AllInField, DataCodewords, LongBlocks;
    var p := VersionDb(v).ecc[LEVEL_L];
    IsReceived(v, payload, m, mask, data, ecc, damage, bitmap, raw);
    LightIsTolerable(v, m, mask, p, data, ecc, damage, bitmap, raw);
    Codestream.TolerableIsRepairable(p, raw, data, ecc);
  }

  /** Encode, photograph with damage, decode: every payload the encoder accepts comes back, whatever the score function
      of the masks, as long as the damage is light.  `version` names the symbol for which the damage was light or not;
      `first` tells whether the decoder could repair the first format copy, as it always can with three wrong modules, or
      went on to the second. */
  method RoundTrip(payload: seq<nat>, penalty: Grid.Matrix -> int, damage: Damage)
    returns (version: nat, status: Status, dataType: nat, decoded: seq<nat>, ghost first: bool)
    requires forall i :: 0 <= i < |payload| ==> payload[i] < 256
    ensures version == 0 <==> |payload| > 271
    ensures version != 0 ==> Smallest(|payload|, version) && 1 <= version <= 10
    ensures version != 0 && FormatHits(version, damage, 0, 15) <= 3 ==> first
    ensures version != 0 && Light(version, damage, if first then 0 else 1) ==>
      status == Success && dataType == 4 && decoded == payload
  {
    hide *;
    first := false;
    var symbol;
    ghost var data, ecc;
    symbol, data, ecc := QrEncode.QrEncode(payload, penalty);
    if symbol.TooLong? {
      return 0, DataOverflow, 0, [], false;
    }
    version := symbol.version;
    SmallestFacts(|payload|, version);
    BlocksFacts(version, payload, data, ecc);
    var m := symbol.modules;
    var bitmap := Extract(version, (r, c) => Grid.Cell(m, r, c) != ((r, c) in damage));
    DamageShown(version, bitmap[..], m, damage);
    ghost var got;
    var eci;
    status, dataType, decoded, eci, first, got :=
      QuircDecode(symbol.size, bitmap, 8 + symbol.mask, Codestream.Joined(data, ecc), payload);
    ghost var sent := Codestream.Sent(VersionDb(version).ecc[LEVEL_L], data, ecc);
    FormatStillReadable(version, bitmap[..], m, symbol.mask, sent, damage, 0);
    FormatStillReadable(version, bitmap[..], m, symbol.mask, sent, damage, 1);
    LevelAndMask(symbol.mask);
    if Light(version, damage, if first then 0 else 1) {
      LightParts(version, damage, if first then 0 else 1);
      Recoverable(version, payload, m, symbol.mask, data, ecc, damage, bitmap[..], got.raw);
    }
  }

  lemma LightParts(v: nat, damage: Damage, copy: nat)
    requires 1 <= v <= 10 && Light(v, damage, copy)
    ensures FormatHits(v, damage, copy, 15) <= 3 && LightData(v, damage)
  {
  }

  lemma SmallestFacts(n: nat, v: nat)
    requires Smallest(n, v)
    ensures 1 <= v <= 10 && n <= Capacity(v) && 21 <= Size(v) <= 177 && (Size(v) - 17) % 4 == 0 && (Size(v) - 17) / 4 == v
  {
  }

  lemma BlocksFacts(v: nat, payload: seq<nat>, data: seq<seq<nat>>, ecc: seq<seq<nat>>)
    requires 1 <= v <= 10 && Blocks(v, payload, data, ecc)
    ensures |data| == |ecc| && 0 <= LEVEL_L < |VersionDb(v).ecc| && VersionDb(v).ecc[LEVEL_L].dw <= VersionDb(v).ecc[LEVEL_L].bs
  {
    hide VersionDb, Codestream.AllCodewords, Carries;
    assert InfoOk(VersionDb(v));
  }

  lemma DamageShown(v: nat, bitmap: seq<nat>, m: Grid.Matrix, damage: Damage)
    requires 1 <= v <= 40 && |bitmap| == MAX_BITMAP
    requires forall r: nat, c: nat {:trigger GridBit(v, bitmap, c, r)} :: r < Size(v) && c < Size(v) ==>
      GridBit(v, bitmap, c, r) == (Grid.Cell(m, r, c) != ((r, c) in damage))
    ensures ShowsDamaged(v, bitmap, m, damage)
  {
    hide GridBit, Grid.Cell;
  }

  lemma FormatStillReadable(v: nat, bitmap: seq<nat>, m: Grid.Matrix, mask: nat, sent: seq<nat>, damage: Damage, copy: nat)
    requires 1 <= v <= 10 && |bitmap| == MAX_BITMAP
    requires Shows(v, m, mask, sent) && ShowsDamaged(v, bitmap, m, damage)
    ensures FormatReadable(v, bitmap, copy, 8 + mask) <==> FormatHits(v, damage, copy, 15) <= 3
  {
    hide Shows, ShowsDamaged, FormatHits, FormatDamage;
    FormatDamageIsHits(v, bitmap, m, mask, sent, damage, copy, 15);
  }

  lemma LevelAndMask(mask: nat)
    requires mask < 8
    ensures (8 + mask) / 8 == LEVEL_L && (8 + mask) % 8 == mask
  {
  }

  /** Without damage nothing is asked of the payload but its length. */
  method RoundTripUndamaged(payload: seq<nat>, penalty: Grid.Matrix -> int)
    returns (status: Status, dataType: nat, decoded: seq<nat>)
    requires |payload| <= 271 && forall i :: 0 <= i < |payload| ==> payload[i] < 256
    ensures status == Success && dataType == 4 && decoded == payload
  {
    hide *;
    var version;
    ghost var first;
    version, status, dataType, decoded, first := RoundTrip(payload, penalty, {});
    UndamagedIsLight(version, if first then 0 else 1);
  }
}
