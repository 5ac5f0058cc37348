/** A payload whose symbol the decoder does not gather as it was sent: version 10, where it takes a parity byte of a short
    block for the last data byte of a long one. */
module Misread {
  import opened Galois
  import Tables
  import opened Polynomials
  import opened Syndromes
  import opened CorrectBlock
  import RsEncode
  import opened Versions
  import opened Codestream
  import opened BitStream
  import opened Payload
  import opened Segments
  import Grid
  import opened QrEncode

  /** 270 zeros and a one. */
  function Bytes(): (b: seq<nat>)
    ensures |b| == 271 && forall i :: 0 <= i < 271 ==> b[i] == if i == 270 then 1 else 0
  {
    seq(271, i => if i == 270 then 1 else 0)
  }

  lemma {:induction false} ZeroBits(n: nat)
    ensures forall k :: 0 <= k < n ==> !BitsOf(0, n)[k]
  {
    if n > 0 {
      ZeroBits(n - 1);
    }
  }

  /** Bits of a payload behind the twenty of mode and count. */
  lemma PayloadBit(p: seq<nat>, i: nat, k: nat)
    requires i < |p| && k < 8
    ensures SegmentBits(p, 10)[20 + 8 * i + k] == BitsOf(p[i], 8)[k]
  {
    hide BitsOf;
    BytesBitsAt(p, i);
    var all := SegmentBits(p, 10);
    assert all == BitsOf(4, 4) + BitsOf(|p|, 16) + BytesBits(p) + BitsOf(0, 4);
    assert all[20 + 8 * i + k] == BytesBits(p)[8 * i + k] == BytesBits(p)[8 * i..8 * i + 8][k];
  }

  /** A codeword of which all bits are payload zeros is zero. */
  lemma ZeroCodeword(flat: seq<nat>, b: nat)
    requires Carries(flat, Bytes(), 10) && 68 <= b < 136 && b < |flat| && flat[b] < 256
    ensures flat[b] == 0
  {
    hide SegmentBits, BitsOf;
    forall k | 0 <= k < 8 ensures BitAt(flat[b], k) == BitAt(0, k) {
      var i, j := (8 * b + k - 20) / 8, (8 * b + k - 20) % 8;
      PayloadBit(Bytes(), i, j);
      ZeroBits(8);
      assert BitsAt(flat, 0, |SegmentBits(Bytes(), 10)|)[8 * b + k] == SegmentBits(Bytes(), 10)[8 * b + k];
    }
    SameBitsSameByte(flat[b], 0);
  }

  /** The last codeword carries the one. */
  lemma LastCodeword(flat: seq<nat>)
    requires Carries(flat, Bytes(), 10) && |flat| == 274
    ensures flat[273] != 0
  {
    hide SegmentBits, BitsOf;
    PayloadBit(Bytes(), 270, 7);
    assert BitsOf(1, 8)[7] by {
      LowBit(1, 8);
    }
    assert BitsAt(flat, 0, |SegmentBits(Bytes(), 10)|)[2187] == SegmentBits(Bytes(), 10)[2187];
    assert BitAt(flat[273], 3);
    ZeroBits(8);
  }

  lemma LowBit(value: nat, n: nat)
    requires n > 0
    ensures BitsOf(value, n)[n - 1] == (value % 2 == 1)
  {
  }

  /** Zeros are a codeword, and no other codeword begins with as many zeros as there are data bytes. */
  lemma ZeroParity(block: seq<nat>, ecc: seq<nat>, npar: nat)
    requires |ecc| == npar && |block| + npar <= 255 && InFieldAll(Tables.Gf256(), block + ecc)
    requires Codeword(Tables.Gf256(), block + ecc, npar) && forall k :: 0 <= k < |block| ==> block[k] == 0
    ensures forall k :: 0 <= k < npar ==> ecc[k] == 0
  {
    hide Pow, Mul, IsField, Syndrome;
    var f := Tables.Gf256();
    var r := block + ecc;
    var zeros := seq(|r|, i => 0);
    RsEncode.FieldBig(f);
    forall i | 0 <= i < npar ensures Syndrome(f, zeros, i) == 0 {
      RsEncode.SyndromeIsHorner(f, zeros, i);
      RsEncode.HornerZeros(f, zeros, Pow(f, i));
    }
    WrongAtEnd(zeros, r, |r|, npar);
    MinimumDistance(f, zeros, r, npar);
    forall k | 0 <= k < npar ensures ecc[k] == 0 {
      assert r[|block| + k] == zeros[|block| + k];
    }
  }

  /** Blocks that agree but for their last m bytes differ in at most m. */
  lemma {:induction false} WrongAtEnd(c: seq<nat>, r: seq<nat>, n: nat, m: nat)
    requires n <= |c| == |r| && m <= |c| && forall i :: 0 <= i < |c| - m ==> c[i] == r[i]
    ensures |Wrong(c, r, n)| <= if n < m then n else m
  {
    if n > 0 {
      WrongAtEnd(c, r, n - 1, m);
    }
  }

  lemma FourBlocks(data: seq<seq<nat>>)
    requires |data| == 4
    ensures Flat(data) == data[0] + data[1] + data[2] + data[3]
  {
    assert data[..3][..2] == data[..2] && data[..2][..1] == data[..1] && data[..1][..0] == [];
    assert Flat(data[..1]) == Flat([]) + data[0];
    assert Flat(data[..2]) == Flat(data[..1]) + data[1];
    assert Flat(data[..3]) == Flat(data[..2]) + data[2];
  }

  /** Whatever is drawn for this payload, the fourth block is not gathered as it was sent. */
  lemma FourthBlockMisread(data: seq<seq<nat>>, ecc: seq<seq<nat>>)
    requires Blocks(10, Bytes(), data, ecc)
    ensures |data| == 4 && Shape(VersionDb(10).ecc[LEVEL_L], data, ecc)
    ensures Gathered(VersionDb(10).ecc[LEVEL_L], Sent(VersionDb(10).ecc[LEVEL_L], data, ecc), 4, 3) != data[3] + ecc[3]
  {
    hide Sent, Gathered, Codeword, Carries, PadsFrom, SegmentBits, Flat;
    var p := VersionDb(10).ecc[LEVEL_L];
    assert p == RsParams(86, 68, 2) && |data| == 4 && DataCodewords(10) == 274;
    var flat := Flat(data);
    FourBlocks(data);
    forall k | 0 <= k < 68 ensures data[1][k] == 0 {
      assert flat[68 + k] == data[1][k];
      ZeroCodeword(flat, 68 + k);
    }
    LastCodeword(flat);
    assert flat[273] == data[3][68];
    ZeroParity(data[1], ecc[1], 18);
    LongBlocksOfTen(data, ecc);
  }

  /** The encoder does draw such a symbol, and the decoder repairs the byte: see the round trip. */
  method Symbol(penalty: Grid.Matrix -> int) returns (s: Symbol, ghost data: seq<seq<nat>>, ghost ecc: seq<seq<nat>>)
    ensures s.Symbol? && s.version == 10 && Blocks(10, Bytes(), data, ecc) && |data| == 4
    ensures Shape(VersionDb(10).ecc[LEVEL_L], data, ecc)
    ensures Gathered(VersionDb(10).ecc[LEVEL_L], Sent(VersionDb(10).ecc[LEVEL_L], data, ecc), 4, 3) != data[3] + ecc[3]
  {
    hide *;
    s, data, ecc := QrEncode.QrEncode(Bytes(), penalty);
    OnlyTen(s.version);
    FourthBlockMisread(data, ecc);
  }

  lemma OnlyTen(v: nat)
    requires Smallest(271, v)
    ensures v == 10
  {
    assert Capacity(9) == 230;
  }
}
