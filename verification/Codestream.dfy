/** Block interleaving on the encoder's side, de-interleaving and repair on the decoder's.

    A symbol carries `ns` short blocks of `dw` data bytes and then long blocks of `dw + 1`.  The decoder
    fetches the last data byte of a long block from a place where the encoder put something else; that
    is one wrong byte in each long block, and repair takes care of it. */
module Codestream {
  import opened Galois
  import opened Tables
  import opened Polynomials
  import opened Syndromes
  import opened CorrectBlock
  import opened BerlekampMassey
  import opened RsEncode
  import opened Versions

  function DataLen(p: RsParams, i: nat): nat {
    if i < p.ns then p.dw else p.dw + 1
  }

  function EcLen(p: RsParams): nat
    requires p.dw <= p.bs
  {
    p.bs - p.dw
  }

  // ---- the encoder's layout ------------------------------------------------------------------------------------

  /** Byte j of every block that has one. */
  function Column(blocks: seq<seq<nat>>, j: nat): seq<nat> {
    if blocks == [] then []
    else
      var last := blocks[|blocks| - 1];
      Column(blocks[..|blocks| - 1], j) + if j < |last| then [last[j]] else []
  }

  /** The first n columns. */
  function Columns(blocks: seq<seq<nat>>, n: nat): seq<nat> {
    if n == 0 then [] else Columns(blocks, n - 1) + Column(blocks, n - 1)
  }

  lemma {:induction false} FullColumn(blocks: seq<seq<nat>>, j: nat)
    requires forall i :: 0 <= i < |blocks| ==> j < |blocks[i]|
    ensures |Column(blocks, j)| == |blocks|
    ensures forall i :: 0 <= i < |blocks| ==> Column(blocks, j)[i] == blocks[i][j]
  {
    if blocks != [] {
      FullColumn(blocks[..|blocks| - 1], j);
    }
  }

  /** Only the blocks from ns on reach column j. */
  lemma {:induction false} LongColumn(blocks: seq<seq<nat>>, j: nat, ns: nat)
    requires forall i :: 0 <= i < |blocks| ==> (j < |blocks[i]| <==> i >= ns)
    ensures |Column(blocks, j)| == if |blocks| <= ns then 0 else |blocks| - ns
    ensures forall k :: 0 <= k < |blocks| - ns ==> Column(blocks, j)[k] == blocks[ns + k][j]
  {
    if blocks == [] {
    } else {
      hide Column;
      var init, last := blocks[..|blocks| - 1], blocks[|blocks| - 1];
      LongColumn(init, j, ns);
      assert blocks == init + [last];
      ColumnAppend(init, last, j);
    }
  }

  /** Place of entry i of column j when every column has bc entries. */
  function At(bc: nat, j: nat, i: nat): nat {
    j * bc + i
  }

  lemma AtStep(bc: nat, j: nat, i: nat)
    ensures At(bc, 0, i) == i && At(bc, j, i) == At(bc, j, 0) + i && At(bc, j + 1, i) == At(bc, j, i) + bc
  {
    assert (j + 1) * bc == j * bc + bc;
  }

  lemma {:induction false} AtBound(bc: nat, j: nat, i: nat, n: nat)
    requires i < bc && j < n
    ensures At(bc, j, i) < At(bc, n, 0)
  {
    hide At;
    AtStep(bc, j, i); AtStep(bc, j, 0);
    if j + 1 < n {
      AtStep(bc, n - 1, 0);
      AtBound(bc, j, i, n - 1);
    }
  }

  lemma {:induction false} FullColumnsSize(blocks: seq<seq<nat>>, n: nat)
    requires forall i :: 0 <= i < |blocks| ==> n <= |blocks[i]|
    ensures |Columns(blocks, n)| == At(|blocks|, n, 0)
  {
    hide At, Column;
    var bc := |blocks|;
    AtStep(bc, 0, 0);
    if n > 0 {
      FullColumnsSize(blocks, n - 1);
      FullColumn(blocks, n - 1);
      AtStep(bc, n - 1, 0);
      assert Columns(blocks, n) == Columns(blocks, n - 1) + Column(blocks, n - 1);
    }
  }

  lemma {:induction false} FullColumnsAt(blocks: seq<seq<nat>>, n: nat, i: nat, j: nat)
    requires forall i :: 0 <= i < |blocks| ==> n <= |blocks[i]|
    requires i < |blocks| && j < n
    ensures At(|blocks|, j, i) < |Columns(blocks, n)| && Columns(blocks, n)[At(|blocks|, j, i)] == blocks[i][j]
  {
    hide At, Columns, Column;
    var bc := |blocks|;
    FullColumnsSize(blocks, n);
    FullColumnsSize(blocks, n - 1);
    AtBound(bc, j, i, n);
    LastColumn(blocks, n - 1);
    if j < n - 1 {
      FullColumnsAt(blocks, n - 1, i, j);
    } else {
      FullColumn(blocks, n - 1);
      AtStep(bc, j, i);
    }
  }

  lemma LastColumn(blocks: seq<seq<nat>>, n: nat)
    ensures Columns(blocks, n + 1) == Columns(blocks, n) + Column(blocks, n)
  {
  }

  /** Data blocks and their parity as the tables prescribe. */
  ghost predicate Shape(p: RsParams, data: seq<seq<nat>>, ecc: seq<seq<nat>>) {
    && p.dw <= p.bs && |data| == |ecc| >= p.ns
    && (forall i :: 0 <= i < |data| ==> |data[i]| == DataLen(p, i))
    && (forall i :: 0 <= i < |ecc| ==> |ecc[i]| == EcLen(p))
  }

  function SentData(p: RsParams, data: seq<seq<nat>>): seq<nat> {
    Columns(data, if |data| > p.ns then p.dw + 1 else p.dw)
  }

  /** What the encoder sends: all data columns, then all parity columns. */
  function Sent(p: RsParams, data: seq<seq<nat>>, ecc: seq<seq<nat>>): seq<nat>
    requires p.dw <= p.bs
  {
    SentData(p, data) + Columns(ecc, EcLen(p))
  }

  /** Number of data bytes in all. */
  function EccOffset(p: RsParams, bc: nat): nat
    requires bc >= p.ns
  {
    At(bc, p.dw, 0) + (bc - p.ns)
  }

  lemma SentSize(p: RsParams, data: seq<seq<nat>>, ecc: seq<seq<nat>>)
    requires Shape(p, data, ecc)
    ensures |SentData(p, data)| == EccOffset(p, |data|)
    ensures |Sent(p, data, ecc)| == EccOffset(p, |data|) + At(|data|, EcLen(p), 0)
    ensures Columns(data, p.dw) <= Sent(p, data, ecc)
  {
    hide At, Column;
    var bc := |data|;
    FullColumnsSize(data, p.dw);
    FullColumnsSize(ecc, EcLen(p));
    if bc > p.ns {
      LongColumn(data, p.dw, p.ns);
    }
  }

  lemma SentDataAt(p: RsParams, data: seq<seq<nat>>, ecc: seq<seq<nat>>, i: nat, j: nat)
    requires Shape(p, data, ecc) && i < |data| && j < p.dw
    ensures var k := At(|data|, j, i); k < |Sent(p, data, ecc)| && Sent(p, data, ecc)[k] == data[i][j]
  {
    hide At, Columns, Sent;
    SentSize(p, data, ecc);
    FullColumnsAt(data, p.dw, i, j);
  }

  lemma SentEccAt(p: RsParams, data: seq<seq<nat>>, ecc: seq<seq<nat>>, i: nat, j: nat)
    requires Shape(p, data, ecc) && i < |data| && j < EcLen(p)
    ensures var k := EccOffset(p, |data|) + At(|data|, j, i);
      k < |Sent(p, data, ecc)| && Sent(p, data, ecc)[k] == ecc[i][j]
  {
    hide At, Columns, SentData;
    SentSize(p, data, ecc);
    FullColumnsAt(ecc, EcLen(p), i, j);
  }

  // ---- the decoder's gathering ---------------------------------------------------------------------------------

  /** Where the decoder looks for byte j of block i among bc blocks. */
  function Source(p: RsParams, bc: nat, i: nat, j: nat): nat
    requires bc >= p.ns
  {
    if j < DataLen(p, i) then At(bc, j, i) else EccOffset(p, bc) + At(bc, j - DataLen(p, i), i)
  }

  function Gathered(p: RsParams, raw: seq<nat>, bc: nat, i: nat): (b: seq<nat>)
    requires p.dw <= p.bs && bc >= p.ns
    ensures |b| == DataLen(p, i) + EcLen(p)
    ensures forall j :: 0 <= j < |b| ==> b[j] == C(raw, Source(p, bc, i, j))
  {
    seq(DataLen(p, i) + EcLen(p), j requires 0 <= j < DataLen(p, i) + EcLen(p) => C(raw, Source(p, bc, i, j)))
  }

  /** Where the encoder put byte j of block i. */
  function Place(p: RsParams, bc: nat, i: nat, j: nat): nat
    requires bc >= p.ns
  {
    if j == p.dw && i >= p.ns then At(bc, p.dw, 0) + (i - p.ns) else Source(p, bc, i, j)
  }

  /** Block i as it lies in the stream. */
  function Placed(p: RsParams, raw: seq<nat>, bc: nat, i: nat): (b: seq<nat>)
    requires p.dw <= p.bs && bc >= p.ns
    ensures |b| == DataLen(p, i) + EcLen(p)
    ensures forall j :: 0 <= j < |b| ==> b[j] == C(raw, Place(p, bc, i, j))
  {
    seq(DataLen(p, i) + EcLen(p), j requires 0 <= j < DataLen(p, i) + EcLen(p) => C(raw, Place(p, bc, i, j)))
  }

  lemma SentLastAt(p: RsParams, data: seq<seq<nat>>, ecc: seq<seq<nat>>, i: nat)
    requires Shape(p, data, ecc) && p.ns <= i < |data|
    ensures var k := At(|data|, p.dw, 0) + (i - p.ns);
      k < |Sent(p, data, ecc)| && Sent(p, data, ecc)[k] == data[i][p.dw]
  {
    hide At, Column, EccOffset;
    LongColumn(data, p.dw, p.ns);
    FullColumnsSize(data, p.dw);
    assert SentData(p, data) == Columns(data, p.dw) + Column(data, p.dw);
    assert Column(data, p.dw)[i - p.ns] == data[i][p.dw];
  }

  /** What was sent lies in the stream: interleaving is undone by reading from the right places. */
  lemma PlacedSent(p: RsParams, data: seq<seq<nat>>, ecc: seq<seq<nat>>, raw: seq<nat>, i: nat)
    requires Shape(p, data, ecc) && i < |data| && Sent(p, data, ecc) <= raw
    ensures Placed(p, raw, |data|, i) == data[i] + ecc[i]
  {
    hide At, Columns, Sent, EccOffset;
    var b := data[i] + ecc[i];
    forall j | 0 <= j < |b| ensures Placed(p, raw, |data|, i)[j] == b[j] {
      if j == p.dw && i >= p.ns {
        SentLastAt(p, data, ecc, i);
      } else if j < DataLen(p, i) {
        SentDataAt(p, data, ecc, i, j);
      } else {
        SentEccAt(p, data, ecc, i, j - DataLen(p, i));
      }
    }
  }

  /** Exactly when the decoder's fetch is right: always in a short block; in a long one, if the byte it takes for
      the last data byte happens to equal it. */
  lemma GatheredIntact(p: RsParams, data: seq<seq<nat>>, ecc: seq<seq<nat>>, i: nat)
    requires Shape(p, data, ecc) && i < |data|
    ensures Gathered(p, Sent(p, data, ecc), |data|, i) == data[i] + ecc[i]
        <==> i < p.ns || C(Sent(p, data, ecc), At(|data|, p.dw, i)) == data[i][p.dw]
  {
    hide At, Columns, Sent, EccOffset;
    var raw := Sent(p, data, ecc);
    var g, b := Gathered(p, raw, |data|, i), Placed(p, raw, |data|, i);
    PlacedSent(p, data, ecc, raw, i);
    assert forall j :: 0 <= j < |b| && !(j == p.dw && i >= p.ns) ==> g[j] == b[j];
    if i >= p.ns {
      assert g[p.dw] == C(raw, At(|data|, p.dw, i)) && b[p.dw] == data[i][p.dw];
    }
  }

  /** Version 10 has two short blocks and two long ones.  For the last data byte of a long block the decoder takes the first
      parity byte of a short one. */
  lemma LongBlocksOfTen(data: seq<seq<nat>>, ecc: seq<seq<nat>>)
    requires Shape(RsParams(86, 68, 2), data, ecc) && |data| == 4
    ensures var p := RsParams(86, 68, 2);
      && (Gathered(p, Sent(p, data, ecc), 4, 2) == data[2] + ecc[2] <==> ecc[0][0] == data[2][68])
      && (Gathered(p, Sent(p, data, ecc), 4, 3) == data[3] + ecc[3] <==> ecc[1][0] == data[3][68])
  {
    hide Sent, Gathered;
    var p := RsParams(86, 68, 2);
    GatheredIntact(p, data, ecc, 2);
    GatheredIntact(p, data, ecc, 3);
    SentEccAt(p, data, ecc, 0, 0);
    SentEccAt(p, data, ecc, 1, 0);
    assert EccOffset(p, 4) == 274 && At(4, 68, 2) == 274 && At(4, 68, 3) == 275 && At(4, 0, 0) == 0 && At(4, 0, 1) == 1;
  }

  /** Changing one byte of r changes its distance from c by at most one. */
  lemma {:induction false} OneMoreWrong(c: seq<nat>, r: seq<nat>, r': seq<nat>, n: nat, k: nat)
    requires n <= |c| == |r| == |r'|
    requires forall j :: 0 <= j < |c| && j != k ==> r[j] == r'[j]
    ensures |Wrong(c, r', n)| <= |Wrong(c, r, n)| + if k < |c| && |c| - 1 - k < n then 1 else 0
  {
    if n > 0 {
      OneMoreWrong(c, r, r', n - 1, k);
    }
  }

  /** The decoder's misplaced fetch costs a long block at most one byte, a short one none. */
  lemma MisreadDistance(p: RsParams, raw: seq<nat>, bc: nat, i: nat, c: seq<nat>)
    requires p.dw <= p.bs && bc >= p.ns && |c| == DataLen(p, i) + EcLen(p)
    ensures Distance(c, Gathered(p, raw, bc, i)) <= Distance(c, Placed(p, raw, bc, i)) + if i < p.ns then 0 else 1
  {
    hide At, EccOffset, Wrong;
    var k := if i < p.ns then |c| else p.dw;
    OneMoreWrong(c, Placed(p, raw, bc, i), Gathered(p, raw, bc, i), |c|, k);
  }

  // ---- interleave ------------------------------------------------------------------------------------------------

  function Flat(blocks: seq<seq<nat>>): seq<nat> {
    if blocks == [] then [] else Flat(blocks[..|blocks| - 1]) + blocks[|blocks| - 1]
  }

  lemma FlatAppend(blocks: seq<seq<nat>>, b: seq<nat>)
    ensures Flat(blocks + [b]) == Flat(blocks) + b
  {
    assert (blocks + [b])[..|blocks|] == blocks;
  }

  lemma ColumnAppend(blocks: seq<seq<nat>>, b: seq<nat>, j: nat)
    ensures Column(blocks + [b], j) == Column(blocks, j) + if j < |b| then [b[j]] else []
  {
    assert (blocks + [b])[..|blocks|] == blocks;
  }

  lemma {:induction false} FlatConcat(a: seq<seq<nat>>, b: seq<seq<nat>>)
    ensures Flat(a + b) == Flat(a) + Flat(b)
  {
    if b == [] {
      assert a + b == a;
    } else {
      var n := |b| - 1;
      assert (a + b)[..|a + b| - 1] == a + b[..n];
      FlatConcat(a, b[..n]);
    }
  }

  function Times(n: nat, per: nat): nat {
    if n == 0 then 0 else per + Times(n - 1, per)
  }

  lemma {:induction false} TimesIsProduct(n: nat, per: nat)
    ensures Times(n, per) == n * per
  {
    if n > 0 {
      TimesIsProduct(n - 1, per);
      assert n * per == per + (n - 1) * per;
    }
  }

  /** The lengths the groups prescribe. */
  function GroupLens(groups: seq<(nat, nat)>): seq<nat> {
    if groups == [] then []
    else GroupLens(groups[..|groups| - 1]) + seq(groups[|groups| - 1].0, i => groups[|groups| - 1].1)
  }

  ghost predicate HaveLens(blocks: seq<seq<nat>>, lens: seq<nat>) {
    |blocks| == |lens| && forall i :: 0 <= i < |blocks| ==> |blocks[i]| == lens[i]
  }

  /** `count` consecutive pieces of `per` bytes from `off` on. */
  method CutGroup(codewords: seq<nat>, off: nat, count: nat, per: nat) returns (blocks: seq<seq<nat>>)
    requires off + Times(count, per) <= |codewords|
    ensures Flat(blocks) == codewords[off..off + Times(count, per)]
    ensures |blocks| == count && forall i :: 0 <= i < count ==> |blocks[i]| == per
  {
    blocks := [];
    var at := off;
    for i := 0 to count
      invariant off <= at && at + Times(count - i, per) == off + Times(count, per)
      invariant Flat(blocks) == codewords[off..at]
      invariant |blocks| == i && forall k :: 0 <= k < i ==> |blocks[k]| == per
    {
      var b := codewords[at..at + per];
      FlatAppend(blocks, b);
      blocks := blocks + [b];
      at := at + per;
    }
  }

  /** Cuts the codewords into blocks, `count` of `per` bytes for each group. */
  method SplitBlocks(codewords: seq<nat>, groups: seq<(nat, nat)>) returns (blocks: seq<seq<nat>>)
    requires |codewords| == GroupsTotal(groups)
    ensures Flat(blocks) == codewords && HaveLens(blocks, GroupLens(groups))
  {
    hide Flat, GroupsTotal, Times;
    blocks := [];
    var off: nat := 0;
    FlatEmpty();
    assert groups[0..] == groups && groups[..0] == [];
    for g := 0 to |groups|
      invariant off + GroupsTotal(groups[g..]) == |codewords| && off <= |codewords|
      invariant Flat(blocks) == codewords[..off]
      invariant HaveLens(blocks, GroupLens(groups[..g]))
    {
      GroupsTotalSteps(groups, g);
      TimesIsProduct(groups[g].0, groups[g].1);
      var cut := CutGroup(codewords, off, groups[g].0, groups[g].1);
      FlatConcat(blocks, cut);
      assert groups[..g + 1][..g] == groups[..g];
      blocks := blocks + cut;
      off := off + Times(groups[g].0, groups[g].1);
    }
    GroupsTotalSteps(groups, |groups|);
    assert codewords[..off] == codewords && groups[..|groups|] == groups;
  }

  lemma FlatEmpty()
    ensures Flat([]) == []
  {
  }

  lemma GroupsTotalSteps(groups: seq<(nat, nat)>, g: nat)
    requires g <= |groups|
    ensures GroupsTotal(groups[g..]) ==
      if g == |groups| then 0 else groups[g].0 * groups[g].1 + GroupsTotal(groups[g + 1..])

  {
    if g < |groups| {
      assert groups[g..][1..] == groups[g + 1..];
    }
  }

  // ---- the encoder's side ------------------------------------------------------------------------------------------

  /** The groups are the short blocks and, if there are any, the long ones. */
  ghost predicate GroupsOf(p: RsParams, long: nat, e: EcL) {
    && 1 <= p.dw < p.bs && p.ns > 0 && e.ecPer == EcLen(p) < 64
    && e.groups == if long > 0 then [(p.ns, p.dw), (long, p.dw + 1)] else [(p.ns, p.dw)]
  }

  lemma GroupLensAre(p: RsParams, long: nat, e: EcL)
    requires GroupsOf(p, long, e)
    ensures |GroupLens(e.groups)| == p.ns + long
    ensures forall i :: 0 <= i < p.ns + long ==> GroupLens(e.groups)[i] == DataLen(p, i)
  {
    var one := [(p.ns, p.dw)];
    assert one[..0] == [];
    assert GroupLens(one) == [] + seq(p.ns, i => p.dw);
    if long > 0 {
      assert e.groups[..1] == one;
    }
  }

  method LongestBlock(blocks: seq<seq<nat>>) returns (n: nat)
    requires |blocks| > 0
    ensures forall i :: 0 <= i < |blocks| ==> |blocks[i]| <= n
    ensures exists i :: 0 <= i < |blocks| && |blocks[i]| == n
  {
    n := |blocks[0]|;
    for i := 1 to |blocks|
      invariant forall k :: 0 <= k < i ==> |blocks[k]| <= n
      invariant exists k :: 0 <= k < i && |blocks[k]| == n
    {
      if |blocks[i]| > n {
        n := |blocks[i]|;
      }
    }
  }

  /** Emits the blocks column by column. */
  method EmitColumns(blocks: seq<seq<nat>>, n: nat) returns (out: seq<nat>)
    ensures out == Columns(blocks, n)
  {
    hide Columns, Column;
    out := [];
    NoColumns(blocks);
    for i := 0 to n
      invariant out == Columns(blocks, i)
    {
      LastColumn(blocks, i);
      ghost var done := out;
      NoColumn(blocks, i);
      for k := 0 to |blocks|
        invariant out == done + Column(blocks[..k], i)
      {
        assert blocks[..k] + [blocks[k]] == blocks[..k + 1];
        ColumnAppend(blocks[..k], blocks[k], i);
        if i < |blocks[k]| {
          out := out + [blocks[k][i]];
        }
      }
    }
  }

  lemma NoColumns(blocks: seq<seq<nat>>)
    ensures Columns(blocks, 0) == []
  {
  }

  lemma NoColumn(blocks: seq<seq<nat>>, i: nat)
    ensures Column(blocks[..0], i) == [] && blocks[..|blocks|] == blocks
  {
  }

  ghost predicate AllInField(f: Field, blocks: seq<seq<nat>>) {
    forall i :: 0 <= i < |blocks| ==> InFieldAll(f, blocks[i])
  }

  /** Every block with its parity is a codeword. */
  ghost predicate AllCodewords(data: seq<seq<nat>>, ecc: seq<seq<nat>>, npar: nat) {
    |data| == |ecc| && forall i :: 0 <= i < |data| ==> Codeword(Gf256(), data[i] + ecc[i], npar)
  }

  /** Splits the codewords into blocks, appends parity to each, and interleaves. */
  method Interleave(t: EncoderTables, codewords: seq<nat>, e: EcL, ghost p: RsParams, ghost long: nat)
    returns (out: seq<nat>, data: seq<seq<nat>>, ecc: seq<seq<nat>>)
    requires TablesOk(t) && GroupsOf(p, long, e) && |codewords| == GroupsTotal(e.groups)
    requires InFieldAll(Gf256(), codewords)
    ensures |data| == p.ns + long && Shape(p, data, ecc)
    ensures Flat(data) == codewords && AllInField(Gf256(), data) && AllInField(Gf256(), ecc)
    ensures AllCodewords(data, ecc, e.ecPer)
    ensures out == Sent(p, data, ecc)
  {
    hide Codeword, Gf256, TablesOk, Flat, Columns;
    data := SplitBlocks(codewords, e.groups);
    GroupLensAre(p, long, e);
    FlatInField(data);
    ecc := [];
    for i := 0 to |data|
      invariant |ecc| == i && AllInField(Gf256(), ecc)
      invariant forall k :: 0 <= k < i ==> |ecc[k]| == e.ecPer
      invariant forall k :: 0 <= k < i ==> Codeword(Gf256(), data[k] + ecc[k], e.ecPer)
    {
      var rem := RsEncode.RsEncode(t, data[i], e.ecPer);
      ecc := ecc + [rem[..]];
    }
    var maxData := LongestBlock(data);
    assert maxData == if |data| > p.ns then p.dw + 1 else p.dw by {
      assert |data[|data| - 1]| <= maxData && |data[0]| <= maxData;
    }
    var first := EmitColumns(data, maxData);
    var second := EmitColumns(ecc, e.ecPer);
    out := first + second;
  }

  lemma {:induction false} FlatInField(blocks: seq<seq<nat>>)
    requires InFieldAll(Gf256(), Flat(blocks))
    ensures AllInField(Gf256(), blocks)
  {
    hide Gf256;
    if blocks != [] {
      var n := |blocks| - 1;
      var init, last := Flat(blocks[..n]), blocks[n];
      assert Flat(blocks) == init + last;
      forall k | 0 <= k < |init| ensures init[k] < Gf256().size {
        assert Flat(blocks)[k] == init[k];
      }
      forall k | 0 <= k < |last| ensures last[k] < Gf256().size {
        assert Flat(blocks)[|init| + k] == last[k];
      }
      FlatInField(blocks[..n]);
    }
  }

  // ---- the decoder's side ------------------------------------------------------------------------------------------

  const MAX_PAYLOAD := 8896

  /** Blocks of the symbol: short and long together fill it, so every fetch is inside it. */
  lemma SymbolSize(dataBytes: nat, p: RsParams)
    requires ParamsOk(dataBytes, p)
    ensures var long := LongBlocks(dataBytes, p); var bc := p.ns + long;
      && EccOffset(p, bc) + At(bc, EcLen(p), 0) == dataBytes
      && EccOffset(p, bc) == p.dw * bc + long
      && At(bc, p.dw + 1, 0) <= dataBytes
  {
    hide LongBlocks;
    var long := LongBlocks(dataBytes, p);
    LongFill(dataBytes, p);
    Filled(p.dw, EcLen(p), p.ns, long);
  }

  lemma LongFill(dataBytes: nat, p: RsParams)
    requires ParamsOk(dataBytes, p)
    ensures dataBytes == p.bs * p.ns + (p.bs + 1) * LongBlocks(dataBytes, p)
  {
  }

  /** Data columns, the long blocks' last data bytes and parity columns are all the bytes of the blocks. */
  lemma Filled(dw: nat, e: nat, ns: nat, long: nat)
    requires e >= 1
    ensures dw * (ns + long) + long + e * (ns + long) == (dw + e) * ns + (dw + e + 1) * long
    ensures (dw + 1) * (ns + long) <= (dw + e) * ns + (dw + e + 1) * long
  {
    Spread(dw, e, ns + long);
    Spread(dw, 1, ns + long);
    Spread(1, e - 1, ns + long);
    Spread(dw + e, 1, long);
    assert (dw + e) * (ns + long) == (dw + e) * ns + (dw + e) * long;
  }

  lemma Spread(a: nat, b: nat, n: nat)
    ensures (a + b) * n == a * n + b * n && a * n >= 0 && b * n >= 0
  {
  }

  lemma SourceInRange(dataBytes: nat, p: RsParams, i: nat, j: nat)
    requires ParamsOk(dataBytes, p) && i < p.ns + LongBlocks(dataBytes, p) && j < DataLen(p, i) + EcLen(p)
    ensures Source(p, p.ns + LongBlocks(dataBytes, p), i, j) < dataBytes
  {
    SymbolSize(dataBytes, p);
    var bc := p.ns + LongBlocks(dataBytes, p);
    hide At, EccOffset;
    if j < DataLen(p, i) {
      AtBound(bc, j, i, p.dw + 1);
    } else {
      AtBound(bc, j - DataLen(p, i), i, EcLen(p));
    }
  }

  /** Data bytes of the first n blocks. */
  function DataOffset(p: RsParams, n: nat): nat {
    p.dw * n + if n <= p.ns then 0 else n - p.ns
  }

  lemma DataOffsetStep(dataBytes: nat, p: RsParams, n: nat)
    requires ParamsOk(dataBytes, p) && n < p.ns + LongBlocks(dataBytes, p)
    ensures DataOffset(p, 0) == 0 && DataOffset(p, n + 1) == DataOffset(p, n) + DataLen(p, n)
    ensures DataOffset(p, n) <= dataBytes
    ensures DataOffset(p, p.ns + LongBlocks(dataBytes, p)) == EccOffset(p, p.ns + LongBlocks(dataBytes, p)) <= dataBytes
  {
    hide LongBlocks, ParamsOk;
    var bc := p.ns + LongBlocks(dataBytes, p);
    SymbolSize(dataBytes, p);
    NextMultiple(p.dw, n);
    Multiples(p.dw, n, bc);
    AtIs(bc, p.dw, 0);
  }

  lemma NextMultiple(a: nat, n: nat)
    ensures a * (n + 1) == a * n + a && a * 0 == 0
  {
  }

  lemma Multiples(a: nat, n: nat, m: nat)
    requires n <= m
    ensures a * n <= a * m
  {
    assert a * m == a * n + a * (m - n);
    assert a * (m - n) >= 0;
  }

  /** The data parts of the first n blocks. */
  function DataParts(p: RsParams, blocks: seq<seq<nat>>, n: nat): (r: seq<seq<nat>>)
    requires n <= |blocks|
    ensures |r| == n
  {
    seq(n, i requires 0 <= i < n => if DataLen(p, i) <= |blocks[i]| then blocks[i][..DataLen(p, i)] else [])
  }

  /** Every block arrives with at most half as many wrong bytes as it has parity bytes. */
  ghost predicate Repairable(f: Gf, p: RsParams, raw: seq<nat>, blocks: seq<seq<nat>>, bc: nat)
    requires p.dw <= p.bs && bc >= p.ns
  {
    |blocks| == bc && forall i :: 0 <= i < bc ==> Near(f, blocks[i], Gathered(p, raw, bc, i), EcLen(p))
  }

  /** n bytes from `from` on, every bc-th of them. */
  function Strided(raw: seq<nat>, from: nat, bc: nat, n: nat): (b: seq<nat>)
    ensures |b| == n && forall j :: 0 <= j < n ==> b[j] == C(raw, At(bc, j, from))
  {
    seq(n, j requires j >= 0 => C(raw, At(bc, j, from)))
  }

  method Fetch(raw: array<nat>, out: array<nat>, dst: nat, from: nat, bc: nat, n: nat)
    requires raw != out && dst + n <= out.Length && (n == 0 || At(bc, n - 1, from) < raw.Length)
    modifies out
    ensures out[..dst + n] == old(out[..dst]) + Strided(raw[..], from, bc, n)
  {
    hide At, Strided;
    ghost var b := Strided(raw[..], from, bc, n);
    for j := 0 to n
      invariant out[..dst] == old(out[..dst])
      invariant forall k :: 0 <= k < j ==> out[dst + k] == b[k]
    {
      AtIs(bc, n - 1, from);
      AtIs(bc, j, from);
      Multiples(bc, j, n - 1);
      out[dst + j] := raw[j * bc + from];
    }
  }

  /** Fetches block i to dst, its data and then its parity. */
  method GatherBlock(raw: array<nat>, out: array<nat>, dst: nat, p: RsParams, dataBytes: nat, bc: nat, i: nat)
    requires ParamsOk(dataBytes, p) && bc == p.ns + LongBlocks(dataBytes, p) && i < bc && dataBytes <= 3706
    requires raw != out && raw.Length == MAX_PAYLOAD && dst + DataLen(p, i) + EcLen(p) <= out.Length
    modifies out
    ensures out[dst..dst + DataLen(p, i) + EcLen(p)] == Gathered(p, raw[..], bc, i)
    ensures out[..dst] == old(out[..dst])
  {
    hide At, EccOffset, Source, Gathered, LongBlocks, Strided, DataLen, ParamsOk;
    HasParity(dataBytes, p);
    EccOffsetIs(p, bc);
    var eccOffset := p.dw * bc + (bc - p.ns);
    var dw := DataLen(p, i);
    LastSources(dataBytes, p, i);
    GatheredIs(p, raw[..], bc, i);
    ghost var before, r := out[..dst], raw[..];
    Fetch(raw, out, dst, i, bc, dw);
    assert raw[..] == r;
    Fetch(raw, out, dst + dw, eccOffset + i, bc, p.bs - p.dw);
    assert raw[..] == r;
    ThreePieces(before, Strided(r, i, bc, dw), Strided(r, eccOffset + i, bc, p.bs - p.dw), out[..], dst);
  }

  lemma HasParity(dataBytes: nat, p: RsParams)
    requires ParamsOk(dataBytes, p)
    ensures p.dw < p.bs
  {
  }

  /** Three pieces in a row. */
  lemma ThreePieces(a: seq<nat>, b: seq<nat>, c: seq<nat>, o: seq<nat>, dst: nat)
    requires dst == |a| && dst + |b| + |c| <= |o| && o[..dst + |b| + |c|] == a + b + c
    ensures o[..dst] == a && o[dst..dst + |b| + |c|] == b + c
  {
    var n := dst + |b| + |c|;
    assert o[..n][..dst] == o[..dst] && o[..n][dst..] == o[dst..n];
    assert (a + b + c)[..dst] == a && (a + b + c)[dst..] == b + c;
  }

  /** The last byte of the data and of the parity of a block come from inside the symbol. */
  lemma LastSources(dataBytes: nat, p: RsParams, i: nat)
    requires ParamsOk(dataBytes, p) && i < p.ns + LongBlocks(dataBytes, p)
    ensures var bc := p.ns + LongBlocks(dataBytes, p);
      At(bc, DataLen(p, i) - 1, i) < dataBytes && At(bc, EcLen(p) - 1, EccOffset(p, bc) + i) < dataBytes
  {
    hide At, EccOffset, LongBlocks;
    var bc, n := p.ns + LongBlocks(dataBytes, p), EcLen(p) - 1;
    SourceInRange(dataBytes, p, i, DataLen(p, i) - 1);
    SourceInRange(dataBytes, p, i, DataLen(p, i) + n);
    AtIs(bc, n, i);
    AtIs(bc, n, EccOffset(p, bc) + i);
  }

  lemma GatheredIs(p: RsParams, raw: seq<nat>, bc: nat, i: nat)
    requires p.dw <= p.bs && bc >= p.ns
    ensures Gathered(p, raw, bc, i) ==
      Strided(raw, i, bc, DataLen(p, i)) + Strided(raw, EccOffset(p, bc) + i, bc, EcLen(p))
  {
    hide At, EccOffset, Strided, Gathered, C;
    var b, d, e := Gathered(p, raw, bc, i), Strided(raw, i, bc, DataLen(p, i)), Strided(raw, EccOffset(p, bc) + i, bc, EcLen(p));
    forall j: nat | j < |b| ensures b[j] == (d + e)[j] {
      if j >= |d| {
        AtIs(bc, j - |d|, i);
        AtIs(bc, j - |d|, EccOffset(p, bc) + i);
      }
    }
  }

  lemma AtIs(bc: nat, j: nat, i: nat)
    ensures At(bc, j, i) == j * bc + i
  {
  }

  lemma EccOffsetIs(p: RsParams, bc: nat)
    requires bc >= p.ns
    ensures EccOffset(p, bc) == p.dw * bc + (bc - p.ns)
  {
  }

  /** Fetches block i to dst and repairs it there. */
  method RepairBlock(raw: array<nat>, out: array<nat>, dst: nat, p: RsParams, dataBytes: nat, bc: nat, i: nat, f: Gf,
                     ghost sent: seq<nat>) returns (good: bool, ghost fixed: seq<nat>)
    requires ParamsOk(dataBytes, p) && bc == p.ns + LongBlocks(dataBytes, p) && i < bc && dataBytes <= 3706
    requires f.p == 255 && f.size == 256
    requires raw != out && raw.Length == out.Length == MAX_PAYLOAD && dst <= dataBytes && InFieldAll(f, raw[..])
    modifies out
    ensures out[..dst] == old(out[..dst])
    ensures InFieldAll(f, out[dst..dst + DataLen(p, i)])
    ensures |fixed| == DataLen(p, i) + EcLen(p) && out[dst..dst + DataLen(p, i)] == fixed[..DataLen(p, i)]
    ensures good <==> Codeword(f, fixed, EcLen(p))
    ensures Near(f, sent, Gathered(p, raw[..], bc, i), EcLen(p)) ==>
      good && DataLen(p, i) <= |sent| && out[dst..dst + DataLen(p, i)] == sent[..DataLen(p, i)]
  {
    hide *;
    BlockFacts(dataBytes, p, i);
    var dw := DataLen(p, i);
    var bs := dw + (p.bs - p.dw);
    ghost var g := Gathered(p, raw[..], bc, i);
    GatherBlock(raw, out, dst, p, dataBytes, bc, i);
    GatheredInField(f, p, raw[..], bc, i);
    good := Correct(out, dst, bs, p.bs - p.dw, f);
    fixed := out[dst..dst + bs];
    SliceSlice(out[..], dst, bs, dw);
    DataRestored(f, sent, g, fixed, p.bs - p.dw, good, dw);
  }

  lemma BlockFacts(dataBytes: nat, p: RsParams, i: nat)
    requires ParamsOk(dataBytes, p)
    ensures p.dw < p.bs && EcLen(p) == p.bs - p.dw < MAX_POLY && DataLen(p, i) + EcLen(p) <= 255 && MAX_PAYLOAD == 8896
  {
  }

  lemma SliceSlice(s: seq<nat>, at: nat, n: nat, k: nat)
    requires k <= n && at + n <= |s|
    ensures s[at..at + n][..k] == s[at..at + k]
  {
  }

  lemma DataRestored(f: Gf, sent: seq<nat>, before: seq<nat>, after: seq<nat>, npar: nat, ok: bool, dw: nat)
    requires Restores(f, before, after, npar, ok) && InFieldAll(f, after) && dw <= |after|
    ensures InFieldAll(f, after[..dw])
    ensures Near(f, sent, before, npar) ==> ok && dw <= |sent| && after[..dw] == sent[..dw]
  {
    hide Near;
  }

  /** Gathers and repairs block after block; each block's parity is overwritten by the next one's data.

      Success means that what comes out is the data of codewords; and with `blocks` what was sent, if every block is
      repairable, its data comes out, in order. */
  method CodestreamEcc(raw: array<nat>, dataBytes: nat, p: RsParams, f: Gf, out: array<nat>, ghost blocks: seq<seq<nat>>)
    returns (ok: bool, dataBits: nat, ghost fixed: seq<seq<nat>>)
    requires ParamsOk(dataBytes, p) && dataBytes <= 3706 && f.p == 255 && f.size == 256
    requires raw != out && raw.Length == MAX_PAYLOAD && out.Length == MAX_PAYLOAD && InFieldAll(f, raw[..])
    modifies out
    ensures var bc := p.ns + LongBlocks(dataBytes, p);
      && (ok ==> dataBits == 8 * EccOffset(p, bc) <= 8 * dataBytes && InFieldAll(f, out[..dataBits / 8]))
      && (|blocks| == bc && Repairable(f, p, raw[..], blocks, bc) ==>
            ok && out[..dataBits / 8] == Flat(DataParts(p, blocks, bc)))
      && (ok ==> |fixed| == bc && AllFixed(f, p, fixed) && out[..dataBits / 8] == Flat(DataParts(p, fixed, bc)))
  {
    hide At, EccOffset, Codeword, Flat, DataParts, DataOffset, IsField, Near, Repairable, Gathered, ParamsOk, AllFixed;
    hide InFieldAll, DataLen;
    ParamsFacts(dataBytes, p);
    var lbCount := (dataBytes - p.bs * p.ns) / (p.bs + 1);
    var bc := lbCount + p.ns;
    var dst: nat := 0;
    ghost var r := raw[..];
    DataOffsetStep(dataBytes, p, 0);
    NoParts(p, blocks);
    fixed := [];
    NoParts(p, fixed);
    NoneFixed(f, p);
    NothingInField(f);
    for i := 0 to bc
      invariant raw[..] == r && dst == DataOffset(p, i) <= dataBytes && InFieldAll(f, out[..dst])
      invariant |blocks| == bc && Repairable(f, p, r, blocks, bc) ==> out[..dst] == Flat(DataParts(p, blocks, i))
      invariant |fixed| == i && AllFixed(f, p, fixed) && out[..dst] == Flat(DataParts(p, fixed, i))
    {
      DataOffsetStep(dataBytes, p, i);
      DataOffsetBound(dataBytes, p, i + 1);
      var dw := DataLen(p, i);
      ghost var done := out[..dst];
      var good, block := RepairBlock(raw, out, dst, p, dataBytes, bc, i, f, if i < |blocks| then blocks[i] else []);
      assert out[..dst + dw] == done + out[dst..dst + dw];
      FieldJoined(f, done, out[dst..dst + dw]);
      if |blocks| == bc && Repairable(f, p, r, blocks, bc) {
        RepairableAt(f, p, r, blocks, bc, i);
        OneMorePart(p, blocks, i);
      }
      if !good {
        return false, 0, fixed;
      }
      OneMoreFixed(f, p, fixed, block);
      fixed := fixed + [block];
      dst := dst + dw;
    }
    return true, dst * 8, fixed;
  }

  /** Blocks of the right lengths, all of them codewords. */
  ghost predicate AllFixed(f: Gf, p: RsParams, blocks: seq<seq<nat>>)
    requires p.dw <= p.bs
  {
    forall i :: 0 <= i < |blocks| ==> |blocks[i]| == DataLen(p, i) + EcLen(p) && Codeword(f, blocks[i], EcLen(p))
  }

  lemma NothingInField(f: Gf)
    ensures InFieldAll(f, [])
  {
  }

  lemma FieldJoined(f: Gf, a: seq<nat>, b: seq<nat>)
    requires InFieldAll(f, a) && InFieldAll(f, b)
    ensures InFieldAll(f, a + b)
  {
  }

  lemma NoneFixed(f: Gf, p: RsParams)
    requires p.dw <= p.bs
    ensures AllFixed(f, p, [])
  {
  }

  lemma OneMoreFixed(f: Gf, p: RsParams, fixed: seq<seq<nat>>, block: seq<nat>)
    requires p.dw <= p.bs && AllFixed(f, p, fixed)
    requires |block| == DataLen(p, |fixed|) + EcLen(p) && Codeword(f, block, EcLen(p))
    ensures AllFixed(f, p, fixed + [block])
    ensures Flat(DataParts(p, fixed + [block], |fixed| + 1)) == Flat(DataParts(p, fixed, |fixed|)) + block[..DataLen(p, |fixed|)]
  {
    hide Codeword;
    OneMorePart(p, fixed + [block], |fixed|);
    assert DataParts(p, fixed + [block], |fixed|) == DataParts(p, fixed, |fixed|);
  }

  lemma DataOffsetBound(dataBytes: nat, p: RsParams, n: nat)
    requires ParamsOk(dataBytes, p) && n <= p.ns + LongBlocks(dataBytes, p)
    ensures DataOffset(p, n) <= dataBytes
  {
    if n < p.ns + LongBlocks(dataBytes, p) {
      DataOffsetStep(dataBytes, p, n);
    } else {
      DataOffsetStep(dataBytes, p, 0);
    }
  }

  lemma ParamsFacts(dataBytes: nat, p: RsParams)
    requires ParamsOk(dataBytes, p)
    ensures 1 <= p.dw < p.bs < 255 && p.bs - p.dw < 64 && dataBytes >= p.bs * p.ns && p.ns >= 1
    ensures (dataBytes - p.bs * p.ns) / (p.bs + 1) == LongBlocks(dataBytes, p)
  {
  }

  lemma RepairableAt(f: Gf, p: RsParams, raw: seq<nat>, blocks: seq<seq<nat>>, bc: nat, i: nat)
    requires p.dw <= p.bs && bc >= p.ns && i < bc && Repairable(f, p, raw, blocks, bc)
    ensures |blocks| == bc && Near(f, blocks[i], Gathered(p, raw, bc, i), EcLen(p))
  {
    hide Codeword, Distance, IsField;
  }

  lemma NoParts(p: RsParams, blocks: seq<seq<nat>>)
    ensures Flat(DataParts(p, blocks, 0)) == []
  {
  }

  lemma OneMorePart(p: RsParams, blocks: seq<seq<nat>>, i: nat)
    requires i < |blocks| && DataLen(p, i) <= |blocks[i]|
    ensures Flat(DataParts(p, blocks, i + 1)) == Flat(DataParts(p, blocks, i)) + blocks[i][..DataLen(p, i)]
  {
    assert DataParts(p, blocks, i + 1)[..i] == DataParts(p, blocks, i);
  }

  lemma GatheredInField(f: Gf, p: RsParams, raw: seq<nat>, bc: nat, i: nat)
    requires p.dw <= p.bs && bc >= p.ns && InFieldAll(f, raw)
    ensures InFieldAll(f, Gathered(p, raw, bc, i))
  {
    FieldBig(f);
  }

  // ---- together ------------------------------------------------------------------------------------------------------

  function Joined(data: seq<seq<nat>>, ecc: seq<seq<nat>>): (blocks: seq<seq<nat>>)
    requires |data| == |ecc|
    ensures |blocks| == |data| && forall i :: 0 <= i < |data| ==> blocks[i] == data[i] + ecc[i]
  {
    seq(|data|, i requires 0 <= i < |data| => data[i] + ecc[i])
  }

  /** Room for t damaged bytes in block i: half the parity, less the byte a long block loses to the misread. */
  ghost predicate Tolerable(p: RsParams, raw: seq<nat>, blocks: seq<seq<nat>>)
    requires p.dw <= p.bs && |blocks| >= p.ns
    requires forall i :: 0 <= i < |blocks| ==> |blocks[i]| == DataLen(p, i) + EcLen(p)
  {
    forall i :: 0 <= i < |blocks| ==>
      2 * (Distance(blocks[i], Placed(p, raw, |blocks|, i)) + if i < p.ns then 0 else 1) <= EcLen(p)
  }

  /** A stream damaged no more than that is repairable. */
  lemma TolerableIsRepairable(p: RsParams, raw: seq<nat>, data: seq<seq<nat>>, ecc: seq<seq<nat>>)
    requires Shape(p, data, ecc) && AllCodewords(data, ecc, EcLen(p))
    requires AllInField(Gf256(), data) && AllInField(Gf256(), ecc)
    requires Tolerable(p, raw, Joined(data, ecc))
    ensures Repairable(Gf256(), p, raw, Joined(data, ecc), |data|)
  {
    hide At, EccOffset, Distance, Gf256, Codeword, Place, Source;
    var f, blocks := Gf256(), Joined(data, ecc);
    forall i | 0 <= i < |data| ensures Near(f, blocks[i], Gathered(p, raw, |data|, i), EcLen(p)) {
      MisreadDistance(p, raw, |data|, i, blocks[i]);
      assert InFieldAll(f, data[i]) && InFieldAll(f, ecc[i]);
    }
  }

  /** An undamaged stream is tolerable as soon as a long block can lose a byte. */
  lemma SentIsTolerable(p: RsParams, raw: seq<nat>, data: seq<seq<nat>>, ecc: seq<seq<nat>>)
    requires Shape(p, data, ecc) && Sent(p, data, ecc) <= raw
    requires |data| > p.ns ==> 2 <= EcLen(p)
    ensures Tolerable(p, raw, Joined(data, ecc))
  {
    hide At, EccOffset, Place, Source, Sent, Wrong;
    var blocks := Joined(data, ecc);
    forall i | 0 <= i < |blocks| ensures Distance(blocks[i], Placed(p, raw, |blocks|, i)) == 0 {
      PlacedSent(p, data, ecc, raw, i);
      SameNoDistance(blocks[i], |blocks[i]|);
    }
  }

  lemma {:induction false} SameNoDistance(c: seq<nat>, n: nat)
    requires n <= |c|
    ensures Wrong(c, c, n) == []
  {
    if n > 0 {
      SameNoDistance(c, n - 1);
    }
  }

  /** Dropping the parity gives the data blocks back. */
  lemma JoinedParts(p: RsParams, data: seq<seq<nat>>, ecc: seq<seq<nat>>)
    requires Shape(p, data, ecc)
    ensures DataParts(p, Joined(data, ecc), |data|) == data
  {
  }
}
