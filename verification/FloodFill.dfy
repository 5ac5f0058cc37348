/** Span flood fill with an explicit bounded stack: what it recolours, what it reports, and when it is complete. */
module FloodFill {

  // ---- regions ---------------------------------------------------------------------------------------------------------------

  /** Rows of pixel values. */
  type Image = seq<seq<nat>>

  /** (row, column). */
  type Point = (int, int)

  predicate Rectangle(img: Image, h: nat, w: nat) {
    |img| == h && forall y :: 0 <= y < h ==> |img[y]| == w
  }

  predicate Inside(img: Image, p: Point) {
    0 <= p.0 < |img| && 0 <= p.1 < |img[p.0]|
  }

  predicate Coloured(img: Image, from: nat, p: Point) {
    Inside(img, p) && img[p.0][p.1] == from
  }

  predicate Adjacent(p: Point, q: Point) {
    (p.0 == q.0 && (p.1 == q.1 + 1 || q.1 == p.1 + 1)) || (p.1 == q.1 && (p.0 == q.0 + 1 || q.0 == p.0 + 1))
  }

  /** A walk through pixels of colour `from`. */
  ghost predicate Path(img: Image, from: nat, path: seq<Point>) {
    && |path| > 0
    && (forall i :: 0 <= i < |path| ==> Coloured(img, from, path[i]))
    && (forall i :: 0 < i < |path| ==> Adjacent(path[i - 1], path[i]))
  }

  ghost predicate Connected(img: Image, from: nat, seed: Point, p: Point) {
    exists path: seq<Point> :: Path(img, from, path) && path[0] == seed && path[|path| - 1] == p
  }

  lemma SeedConnected(img: Image, from: nat, seed: Point)
    requires Coloured(img, from, seed)
    ensures Connected(img, from, seed, seed)
  {
    assert Path(img, from, [seed]);
  }

  lemma NeighbourConnected(img: Image, from: nat, seed: Point, p: Point, q: Point)
    requires Connected(img, from, seed, p) && Coloured(img, from, q) && Adjacent(p, q)
    ensures Connected(img, from, seed, q)
  {
    var path :| Path(img, from, path) && path[0] == seed && path[|path| - 1] == p;
    assert Path(img, from, path + [q]);
  }

  /** No pixel of colour `from` touches the set from outside. */
  ghost predicate Closed(img: Image, from: nat, done: set<Point>) {
    forall p: Point, q: Point :: p in done && Adjacent(p, q) && Coloured(img, from, q) ==> q in done
  }

  lemma {:induction false} PathStaysInside(img: Image, from: nat, done: set<Point>, path: seq<Point>)
    requires Path(img, from, path) && path[0] in done && Closed(img, from, done)
    ensures path[|path| - 1] in done
  {
    if |path| > 1 {
      var shorter := path[..|path| - 1];
      assert Path(img, from, shorter);
      PathStaysInside(img, from, done, shorter);
      assert Adjacent(path[|path| - 2], path[|path| - 1]);
    }
  }

  /** A closed set with the seed in it is the whole component. */
  lemma ClosedIsComponent(img: Image, from: nat, seed: Point, done: set<Point>, p: Point)
    requires seed in done && Closed(img, from, done) && Connected(img, from, seed, p)
    ensures p in done
  {
    var path :| Path(img, from, path) && path[0] == seed && path[|path| - 1] == p;
    PathStaysInside(img, from, done, path);
  }

  // ---- spans -------------------------------------------------------------------------------------------------------------------

  /** What the callback is told: a row and its first and last recoloured column. */
  datatype Span = Span(y: nat, left: nat, right: nat)

  function Cells(y: nat, left: nat, end: nat): (cells: set<Point>)
    ensures forall p: Point :: p in cells <==> p.0 == y && left <= p.1 < end
  {
    if end <= left then {} else Cells(y, left, end - 1) + {(y as int, (end - 1) as int)}
  }

  lemma {:induction false} CellsCount(y: nat, left: nat, end: nat)
    requires left <= end
    ensures |Cells(y, left, end)| == end - left
  {
    if left < end {
      CellsCount(y, left, end - 1);
    }
  }

  function Covered(spans: seq<Span>): set<Point> {
    if spans == [] then {}
    else
      var s := spans[|spans| - 1];
      Covered(spans[..|spans| - 1]) + Cells(s.y, s.left, s.right + 1)
  }

  function TotalLength(spans: seq<Span>): int {
    if spans == [] then 0
    else
      var s := spans[|spans| - 1];
      TotalLength(spans[..|spans| - 1]) + (s.right - s.left + 1)
  }

  /** The spans tile the set: together they cover it and no pixel is reported twice. */
  ghost predicate Tiles(spans: seq<Span>, done: set<Point>) {
    Covered(spans) == done && TotalLength(spans) == |done|
  }

  lemma OneMoreSpan(spans: seq<Span>, done: set<Point>, y: nat, left: nat, right: nat)
    requires Tiles(spans, done) && left <= right && Cells(y, left, right + 1) !! done
    ensures Tiles(spans + [Span(y, left, right)], done + Cells(y, left, right + 1))
  {
    hide Cells;
    CellsCount(y, left, right + 1);
    assert (spans + [Span(y, left, right)])[..|spans|] == spans;
    CardinalityAdds(done, Cells(y, left, right + 1));
  }

  lemma CardinalityAdds(a: set<Point>, b: set<Point>)
    requires a !! b
    ensures |a + b| == |a| + |b|
  {
  }

  // ---- the stack -----------------------------------------------------------------------------------------------------------------

  /** A span whose neighbours above are examined from leftUp on, those below from leftDown on. */
  datatype Frame = Frame(y: nat, right: nat, leftUp: nat, leftDown: nat)

  function Left(f: Frame, direction: int): nat {
    if direction < 0 then f.leftUp else f.leftDown
  }

  /** Pixel (y, x) is still to be looked at from its row's frame, in that direction. */
  ghost predicate Pending(stack: seq<Frame>, n: nat, y: int, x: int, direction: int) {
    exists d: nat {:trigger stack[d]} :: d < n <= |stack| && stack[d].y == y && Left(stack[d], direction) <= x <= stack[d].right
  }

  predicate Open(img: Image, from: nat, done: set<Point>, p: Point) {
    Coloured(img, from, p) && p !in done
  }

  /** Rows are filled as far as they go; above and below, an open pixel is pending. */
  ghost predicate Tended(img: Image, from: nat, done: set<Point>, stack: seq<Frame>, n: nat) {
    forall p: Point {:trigger p in done} :: p in done ==>
      && !Open(img, from, done, (p.0, p.1 - 1)) && !Open(img, from, done, (p.0, p.1 + 1))
      && (Open(img, from, done, (p.0 - 1, p.1)) ==> Pending(stack, n, p.0, p.1, -1))
      && (Open(img, from, done, (p.0 + 1, p.1)) ==> Pending(stack, n, p.0, p.1, 1))
  }

  ghost predicate FrameOk(img: Image, done: set<Point>, f: Frame) {
    && f.y < |img| && f.right < |img[f.y]| && f.leftUp <= f.right + 1 && f.leftDown <= f.right + 1
    && forall x: nat {:trigger (f.y as int, x as int) in done} :: (f.leftUp <= x <= f.right || f.leftDown <= x <= f.right) ==>
         (f.y as int, x as int) in done
  }

  ghost predicate FramesOk(img: Image, done: set<Point>, stack: seq<Frame>, n: nat) {
    n <= |stack| && forall d: nat :: d < n ==> FrameOk(img, done, stack[d])
  }

  /** Everything recoloured so far is connected to the seed. */
  ghost predicate Reached(img: Image, from: nat, seed: Point, done: set<Point>) {
    forall p: Point :: p in done ==> Connected(img, from, seed, p)
  }

  /** The pixel buffer is the image with the set recoloured. */
  ghost predicate Recoloured(pixels: array2<nat>, img: Image, done: set<Point>, to: nat)
    reads pixels
  {
    && Rectangle(img, pixels.Length0, pixels.Length1)
    && (forall y: int, x: int {:trigger pixels[y, x]} :: 0 <= y < pixels.Length0 && 0 <= x < pixels.Length1 ==>
          pixels[y, x] == if (y, x) in done then to else img[y][x])
  }

  /** Fills the run of `from` around (y, x) and returns its extent. */
  method FloodFillLine(pixels: array2<nat>, x: nat, y: nat, from: nat, to: nat, ghost img: Image, ghost done: set<Point>)
    returns (left: nat, right: nat)
    requires from != to && y < pixels.Length0 && x < pixels.Length1
    requires Recoloured(pixels, img, done, to) && Open(img, from, done, (y, x))
    modifies pixels
    ensures left <= x <= right < pixels.Length1
    ensures forall i: nat :: left <= i <= right ==> Open(img, from, done, (y, i))
    ensures !Open(img, from, done, (y, left - 1)) && !Open(img, from, done, (y, right + 1))
    ensures Recoloured(pixels, img, done + Cells(y, left, right + 1), to)
  {
    left, right := x, x;
    while left > 0 && pixels[y, left - 1] == from
      invariant left <= x && forall i: nat :: left <= i <= x ==> Open(img, from, done, (y, i))
    {
      left := left - 1;
    }
    while right < pixels.Length1 - 1 && pixels[y, right + 1] == from
      invariant x <= right < pixels.Length1 && forall i: nat :: left <= i <= right ==> Open(img, from, done, (y, i))
    {
      right := right + 1;
    }
    for i := left to right + 1
      invariant Recoloured(pixels, img, done + Cells(y, left, i), to)
    {
      pixels[y, i] := to;
    }
  }

  // ---- steps of the walk ---------------------------------------------------------------------------------------------------------

  /** All that holds between two steps: n frames are in use. */
  ghost predicate Inv(img: Image, from: nat, seed: Point, done: set<Point>, spans: seq<Span>, stack: seq<Frame>, n: nat) {
    && seed in done && Reached(img, from, seed, done) && Tiles(spans, done)
    && FramesOk(img, done, stack, n) && Tended(img, from, done, stack, n)
  }

  // ---- how deep the stack can get --------------------------------------------------------------------------------------------------

  /** A row's run of `from` that goes no further on either side. */
  predicate MaximalRun(img: Image, from: nat, s: Span) {
    && s.left <= s.right && (forall i: int :: s.left <= i <= s.right ==> Coloured(img, from, (s.y, i)))
    && !Coloured(img, from, (s.y, s.left - 1)) && !Coloured(img, from, (s.y, s.right + 1))
  }

  /** Runs in neighbouring rows with a column in common. */
  predicate Touch(a: Span, b: Span) {
    (a.y == b.y + 1 || b.y == a.y + 1) && a.left <= b.right && b.left <= a.right
  }

  /** A walk from the seed's run over runs that touch, none of them twice. */
  ghost predicate Chain(img: Image, from: nat, seed: Point, chain: seq<Span>) {
    && |chain| > 0 && chain[0].y == seed.0 && chain[0].left <= seed.1 <= chain[0].right
    && (forall k :: 0 <= k < |chain| ==> MaximalRun(img, from, chain[k]))
    && (forall k :: 0 < k < |chain| ==> Touch(chain[k - 1], chain[k]))
    && (forall i, j :: 0 <= i < j < |chain| ==> chain[i] != chain[j])
  }

  /** The frames on the stack are such a walk. */
  ghost predicate Deep(img: Image, from: nat, seed: Point, done: set<Point>, chain: seq<Span>, stack: seq<Frame>, n: nat) {
    && 0 < n == |chain| <= |stack| && Chain(img, from, seed, chain)
    && forall k: nat :: k < n ==> OnStack(done, chain[k], stack[k])
  }

  predicate OnStack(done: set<Point>, s: Span, f: Frame) {
    f.y == s.y && f.right == s.right && s.left <= f.leftUp && s.left <= f.leftDown && (s.y as int, s.left as int) in done
  }

  /** A filled run is maximal in the image: what is already filled beside it would have been filled with it. */
  lemma FilledIsMaximal(img: Image, from: nat, done: set<Point>, stack: seq<Frame>, n: nat, s: Span)
    requires Tended(img, from, done, stack, n) && s.left <= s.right
    requires forall i: nat :: s.left <= i <= s.right ==> Open(img, from, done, (s.y, i))
    requires !Open(img, from, done, (s.y, s.left - 1)) && !Open(img, from, done, (s.y, s.right + 1))
    ensures MaximalRun(img, from, s)
  {
    hide Pending, Coloured;
    forall i: int | s.left <= i <= s.right ensures Coloured(img, from, (s.y, i)) {
      var k: nat := i;
      assert Open(img, from, done, (s.y, k));
    }
    assert Open(img, from, done, (s.y, s.left)) && Open(img, from, done, (s.y, s.right));
    var p: Point, q: Point := (s.y, s.left - 1), (s.y, s.right + 1);
    assert p in done ==> !Open(img, from, done, (p.0, p.1 + 1));
    assert q in done ==> !Open(img, from, done, (q.0, q.1 - 1));
  }

  /** One run deeper. */
  lemma DeepMore(img: Image, from: nat, seed: Point, done: set<Point>, done': set<Point>, chain: seq<Span>, stack: seq<Frame>, n: nat,
                 s: Span)
    requires Deep(img, from, seed, done, chain, stack, n) && n < |stack| && done <= done'
    requires MaximalRun(img, from, s) && Touch(chain[n - 1], s)
    requires (s.y as int, s.left as int) !in done && (s.y as int, s.left as int) in done'
    ensures Deep(img, from, seed, done', chain + [s], stack[n := Frame(s.y, s.right, s.left, s.left)], n + 1)
  {
    hide MaximalRun, Touch;
    var more := chain + [s];
    forall k | 0 <= k < n ensures chain[k] != s {
      assert OnStack(done, chain[k], stack[k]);
    }
    forall k | 0 < k < |more| ensures Touch(more[k - 1], more[k]) {
      if k < n {
        assert Touch(chain[k - 1], chain[k]);
      }
    }
  }

  lemma DeepAdvance(img: Image, from: nat, seed: Point, done: set<Point>, chain: seq<Span>, stack: seq<Frame>, n: nat, direction: int)
    requires Deep(img, from, seed, done, chain, stack, n)
    ensures Deep(img, from, seed, done, chain, stack[n - 1 := Advanced(stack[n - 1], direction)], n)
  {
    hide Chain;
  }

  lemma DeepLess(img: Image, from: nat, seed: Point, done: set<Point>, chain: seq<Span>, stack: seq<Frame>, n: nat)
    requires Deep(img, from, seed, done, chain, stack, n) && n > 1
    ensures Deep(img, from, seed, done, chain[..n - 1], stack, n - 1)
  {
    hide MaximalRun, Touch;
    var less := chain[..n - 1];
    forall k | 0 < k < n - 1 ensures Touch(less[k - 1], less[k]) {
      assert Touch(chain[k - 1], chain[k]);
    }
  }

  lemma DeepStart(img: Image, from: nat, seed: Point, done: set<Point>, stack: seq<Frame>, s: Span)
    requires |stack| > 0 && MaximalRun(img, from, s) && s.y == seed.0 && s.left <= seed.1 <= s.right
    requires stack[0] == Frame(s.y, s.right, s.left, s.left) && (s.y as int, s.left as int) in done
    ensures Deep(img, from, seed, done, [s], stack, 1)
  {
    hide MaximalRun;
  }

  /** The maximal runs of the seed's component. */
  ghost function Runs(img: Image, from: nat, w: nat, seed: Point): set<Span> {
    set y: nat, l: nat, r: nat | y < |img| && l < w && r < w && IsRun(img, from, seed, Span(y, l, r)) :: Span(y, l, r)
  }

  ghost predicate IsRun(img: Image, from: nat, seed: Point, s: Span) {
    MaximalRun(img, from, s) && Connected(img, from, seed, (s.y, s.left))
  }

  lemma {:induction false} ChainConnected(img: Image, from: nat, seed: Point, chain: seq<Span>, k: nat)
    requires Chain(img, from, seed, chain) && k < |chain|
    ensures Connected(img, from, seed, (chain[k].y, chain[k].left))
  {
    hide Connected, Coloured;
    var s := chain[k];
    assert MaximalRun(img, from, s);
    if k == 0 {
      assert Coloured(img, from, (s.y, seed.1));
      SeedConnected(img, from, seed);
      RunConnected(img, from, seed, s.y, seed.1, s.left, s.right);
    } else {
      var b := chain[k - 1];
      assert MaximalRun(img, from, b) && Touch(b, s);
      ChainConnected(img, from, seed, chain, k - 1);
      RunConnected(img, from, seed, b.y, b.left, b.left, b.right);
      var x := if b.left <= s.left then s.left else b.left;
      assert Coloured(img, from, (s.y, x));
      NeighbourConnected(img, from, seed, (b.y, x), (s.y, x));
      RunConnected(img, from, seed, s.y, x, s.left, s.right);
    }
  }

  /** A walk over runs is no longer than there are runs. */
  lemma ChainBound(img: Image, from: nat, h: nat, w: nat, seed: Point, chain: seq<Span>)
    requires Rectangle(img, h, w) && Chain(img, from, seed, chain)
    ensures |chain| <= |Runs(img, from, w, seed)|
  {
    hide Connected;
    forall k | 0 <= k < |chain| ensures chain[k] in Runs(img, from, w, seed) {
      ChainConnected(img, from, seed, chain, k);
      var s := chain[k];
      assert MaximalRun(img, from, s);
      assert Coloured(img, from, (s.y, s.left)) && Coloured(img, from, (s.y, s.right));
      assert IsRun(img, from, seed, Span(s.y, s.left, s.right));
    }
    DistinctBound(chain, Runs(img, from, w, seed));
  }

  lemma {:induction false} DistinctBound(chain: seq<Span>, runs: set<Span>)
    requires (forall k :: 0 <= k < |chain| ==> chain[k] in runs) && forall i, j :: 0 <= i < j < |chain| ==> chain[i] != chain[j]
    ensures |chain| <= |runs|
  {
    if chain != [] {
      var n := |chain| - 1;
      DistinctBound(chain[..n], runs - {chain[n]});
    }
  }

  /** A run of `from` is connected as soon as one of its pixels is. */
  lemma RunConnected(img: Image, from: nat, seed: Point, y: int, x: int, left: int, right: int)
    requires left <= x <= right && Connected(img, from, seed, (y, x))
    requires forall i: int :: left <= i <= right ==> Coloured(img, from, (y, i))
    ensures forall i: int :: left <= i <= right ==> Connected(img, from, seed, (y, i))
  {
    hide Connected;
    var i := x;
    while i > left
      invariant left <= i <= x && forall k: int :: i <= k <= x ==> Connected(img, from, seed, (y, k))
    {
      NeighbourConnected(img, from, seed, (y, i), (y, i - 1));
      i := i - 1;
    }
    var j := x;
    while j < right
      invariant x <= j <= right && forall k: int :: left <= k <= j ==> Connected(img, from, seed, (y, k))
    {
      NeighbourConnected(img, from, seed, (y, j), (y, j + 1));
      j := j + 1;
    }
  }

  /** A new span reached from a pixel already connected. */
  lemma ReachMore(img: Image, from: nat, seed: Point, done: set<Point>, y: nat, x: nat, left: nat, right: nat)
    requires Reached(img, from, seed, done) && left <= x <= right && Connected(img, from, seed, (y, x))
    requires forall i: nat :: left <= i <= right ==> Coloured(img, from, (y, i))
    ensures Reached(img, from, seed, done + Cells(y, left, right + 1))
  {
    hide Connected, Coloured, Cells;
    forall i: int | left <= i <= right ensures Coloured(img, from, (y, i)) {
      var k: nat := i;
      assert Coloured(img, from, (y, k));
    }
    RunConnected(img, from, seed, y, x, left, right);
  }

  /** Its frame is in order, and so are the others. */
  lemma FramesMore(img: Image, done: set<Point>, stack: seq<Frame>, n: nat, y: nat, left: nat, right: nat)
    requires FramesOk(img, done, stack, n) && n < |stack| && y < |img| && right < |img[y]| && left <= right
    ensures FramesOk(img, done + Cells(y, left, right + 1), stack[n := Frame(y, right, left, left)], n + 1)
  {
    hide Cells;
  }

  lemma PendingMore(stack: seq<Frame>, n: nat, f: Frame, y: int, x: int, direction: int)
    requires n < |stack|
    ensures Pending(stack[n := f], n + 1, y, x, direction) <==>
      Pending(stack, n, y, x, direction) || (f.y == y && Left(f, direction) <= x <= f.right)
  {
    hide Left;
    var s := stack[n := f];
    if Pending(stack, n, y, x, direction) {
      var d: nat :| d < n && stack[d].y == y && Left(stack[d], direction) <= x <= stack[d].right;
      assert s[d] == stack[d];
    }
    if f.y == y && Left(f, direction) <= x <= f.right {
      assert s[n] == f;
    }
    if Pending(s, n + 1, y, x, direction) {
      var d: nat :| d < n + 1 && s[d].y == y && Left(s[d], direction) <= x <= s[d].right;
      if d < n {
        assert stack[d] == s[d];
      }
    }
  }

  /** Everything above and below a new span is pending; the span itself is no longer open to its neighbours. */
  lemma TendedMore(img: Image, from: nat, done: set<Point>, stack: seq<Frame>, n: nat, y: nat, left: nat, right: nat)
    requires Tended(img, from, done, stack, n) && n < |stack|
    requires !Open(img, from, done, (y, left - 1)) && !Open(img, from, done, (y, right + 1))
    ensures Tended(img, from, done + Cells(y, left, right + 1), stack[n := Frame(y, right, left, left)], n + 1)
  {
    hide Cells, Pending, Coloured;
    var done' := done + Cells(y, left, right + 1);
    var f := Frame(y, right, left, left);
    forall p: Point | p in done'
      ensures !Open(img, from, done', (p.0, p.1 - 1)) && !Open(img, from, done', (p.0, p.1 + 1))
      ensures Open(img, from, done', (p.0 - 1, p.1)) ==> Pending(stack[n := f], n + 1, p.0, p.1, -1)
      ensures Open(img, from, done', (p.0 + 1, p.1)) ==> Pending(stack[n := f], n + 1, p.0, p.1, 1)
    {
      PendingMore(stack, n, f, p.0, p.1, -1);
      PendingMore(stack, n, f, p.0, p.1, 1);
      if p in done {
        assert Open(img, from, done', (p.0, p.1 - 1)) ==> Open(img, from, done, (p.0, p.1 - 1));
      }
    }
  }

  /** A frame that has looked at everything on its two sides can be dropped. */
  lemma PendingLess(stack: seq<Frame>, n: nat, y: int, x: int, direction: int)
    requires 0 < n <= |stack|
    ensures Pending(stack, n, y, x, direction) <==>
      Pending(stack, n - 1, y, x, direction)
      || (stack[n - 1].y == y && Left(stack[n - 1], direction) <= x <= stack[n - 1].right)
  {
    hide Left;
  }

  lemma TendedLess(img: Image, from: nat, done: set<Point>, stack: seq<Frame>, n: nat)
    requires Tended(img, from, done, stack, n) && 0 < n <= |stack|
    requires stack[n - 1].y == 0 || stack[n - 1].leftUp > stack[n - 1].right
    requires stack[n - 1].y + 1 >= |img| || stack[n - 1].leftDown > stack[n - 1].right
    ensures Tended(img, from, done, stack, n - 1)
  {
    hide Pending;
    forall p: Point | p in done
      ensures Open(img, from, done, (p.0 - 1, p.1)) ==> Pending(stack, n - 1, p.0, p.1, -1)
      ensures Open(img, from, done, (p.0 + 1, p.1)) ==> Pending(stack, n - 1, p.0, p.1, 1)
    {
      PendingLess(stack, n, p.0, p.1, -1);
      PendingLess(stack, n, p.0, p.1, 1);
    }
  }

  function Advanced(f: Frame, direction: int): Frame {
    if direction < 0 then f.(leftUp := f.leftUp + 1) else f.(leftDown := f.leftDown + 1)
  }

  /** One pixel of a side was looked at and is not open. */
  lemma TendedAdvance(img: Image, from: nat, done: set<Point>, stack: seq<Frame>, n: nat, direction: int)
    requires Tended(img, from, done, stack, n) && 0 < n <= |stack| && (direction == -1 || direction == 1)
    requires !Open(img, from, done, (stack[n - 1].y + direction, Left(stack[n - 1], direction)))
    ensures Tended(img, from, done, stack[n - 1 := Advanced(stack[n - 1], direction)], n)
  {
    hide Pending, Coloured;
    var f := stack[n - 1];
    var f' := Advanced(f, direction);
    var stack' := stack[n - 1 := f'];
    forall p: Point | p in done
      ensures Open(img, from, done, (p.0 - 1, p.1)) ==> Pending(stack', n, p.0, p.1, -1)
      ensures Open(img, from, done, (p.0 + 1, p.1)) ==> Pending(stack', n, p.0, p.1, 1)
    {
      PendingLess(stack, n, p.0, p.1, -1);
      PendingLess(stack, n, p.0, p.1, 1);
      PendingMore(stack, n - 1, f', p.0, p.1, -1);
      PendingMore(stack, n - 1, f', p.0, p.1, 1);
    }
  }

  lemma FramesAdvance(img: Image, done: set<Point>, stack: seq<Frame>, n: nat, direction: int)
    requires FramesOk(img, done, stack, n) && 0 < n && Left(stack[n - 1], direction) <= stack[n - 1].right
    ensures FramesOk(img, done, stack[n - 1 := Advanced(stack[n - 1], direction)], n)
  {
  }

  /** With nothing pending, no open pixel touches the set. */
  lemma TendedClosed(img: Image, from: nat, done: set<Point>, stack: seq<Frame>)
    requires Tended(img, from, done, stack, 0)
    ensures Closed(img, from, done)
  {
    hide Coloured;
    forall p: Point, q: Point | p in done && Adjacent(p, q) && Coloured(img, from, q) ensures q in done {
      assert q == (p.0, p.1 - 1) || q == (p.0, p.1 + 1) || q == (p.0 - 1, p.1) || q == (p.0 + 1, p.1);
      assert !Pending(stack, 0, p.0, p.1, -1) && !Pending(stack, 0, p.0, p.1, 1);
    }
  }

  // ---- the algorithm -------------------------------------------------------------------------------------------------------------

  lemma FrameConnected(img: Image, from: nat, seed: Point, done: set<Point>, stack: seq<Frame>, n: nat, direction: int, x: nat)
    requires Reached(img, from, seed, done) && FramesOk(img, done, stack, n) && 0 < n && (direction == -1 || direction == 1)
    requires x == Left(stack[n - 1], direction) <= stack[n - 1].right && Coloured(img, from, (stack[n - 1].y + direction, x))
    ensures Connected(img, from, seed, (stack[n - 1].y + direction, x))
  {
    hide Connected, Coloured;
    var f := stack[n - 1];
    assert FrameOk(img, done, f);
    assert (f.y as int, x as int) in done;
    NeighbourConnected(img, from, seed, (f.y, x), (f.y + direction, x));
  }

  /** A whole new span on top of the stack. */
  lemma Push(img: Image, from: nat, seed: Point, done: set<Point>, spans: seq<Span>, stack: seq<Frame>, n: nat,
             y: nat, x: nat, left: nat, right: nat)
    requires Inv(img, from, seed, done, spans, stack, n) && n < |stack|
    requires Connected(img, from, seed, (y, x)) && left <= x <= right && y < |img| && right < |img[y]|
    requires forall i: nat :: left <= i <= right ==> Open(img, from, done, (y, i))
    requires !Open(img, from, done, (y, left - 1)) && !Open(img, from, done, (y, right + 1))
    ensures Inv(img, from, seed, done + Cells(y, left, right + 1), spans + [Span(y, left, right)],
                stack[n := Frame(y, right, left, left)], n + 1)
    ensures |done + Cells(y, left, right + 1)| > |done|
  {
    hide Connected, Coloured, Cells, Tended, FramesOk, Reached, Covered, TotalLength;
    forall p: Point | p in Cells(y, left, right + 1) ensures p !in done {
      var i: nat := p.1;
      assert Open(img, from, done, (y, i));
    }
    OneMoreSpan(spans, done, y, left, right);
    CellsCount(y, left, right + 1);
    CardinalityAdds(done, Cells(y, left, right + 1));
    ReachMore(img, from, seed, done, y, x, left, right);
    FramesMore(img, done, stack, n, y, left, right);
    TendedMore(img, from, done, stack, n, y, left, right);
  }

  lemma Advance(img: Image, from: nat, seed: Point, done: set<Point>, spans: seq<Span>, stack: seq<Frame>, n: nat, direction: int)
    requires Inv(img, from, seed, done, spans, stack, n) && 0 < n <= |stack| && (direction == -1 || direction == 1)
    requires Left(stack[n - 1], direction) <= stack[n - 1].right
    requires !Open(img, from, done, (stack[n - 1].y + direction, Left(stack[n - 1], direction)))
    ensures Inv(img, from, seed, done, spans, stack[n - 1 := Advanced(stack[n - 1], direction)], n)
  {
    hide Coloured, Tended, FramesOk, Reached, Tiles;
    FramesAdvance(img, done, stack, n, direction);
    TendedAdvance(img, from, done, stack, n, direction);
  }

  lemma Pop(img: Image, from: nat, seed: Point, done: set<Point>, spans: seq<Span>, stack: seq<Frame>, n: nat)
    requires Inv(img, from, seed, done, spans, stack, n) && 0 < n <= |stack|
    requires stack[n - 1].y == 0 || stack[n - 1].leftUp > stack[n - 1].right
    requires stack[n - 1].y + 1 >= |img| || stack[n - 1].leftDown > stack[n - 1].right
    ensures Inv(img, from, seed, done, spans, stack, n - 1)
  {
    hide Coloured, Tended, Reached, Tiles;
    TendedLess(img, from, done, stack, n);
  }

  lemma PixelTells(pixels: array2<nat>, img: Image, done: set<Point>, from: nat, to: nat, y: int, x: int)
    requires from != to && Recoloured(pixels, img, done, to) && 0 <= y < pixels.Length0 && 0 <= x < pixels.Length1
    ensures pixels[y, x] == from <==> Open(img, from, done, (y, x))
    ensures |img| == pixels.Length0 && |img[y]| == pixels.Length1
  {
  }

  /** Fills the run through (y, x) and pushes its frame. */
  method FillNext(pixels: array2<nat>, stack: array<Frame>, n: nat, y: nat, x: nat, from: nat, to: nat,
                  ghost img: Image, ghost seed: Point, ghost done: set<Point>, ghost spans: seq<Span>, ghost chain: seq<Span>)
    returns (span: Span, ghost done': set<Point>)
    requires from != to && 0 < n < stack.Length && y < pixels.Length0 && x < pixels.Length1 && Open(img, from, done, (y, x))
    requires Recoloured(pixels, img, done, to) && Inv(img, from, seed, done, spans, stack[..], n)
    requires Connected(img, from, seed, (y, x)) && Deep(img, from, seed, done, chain, stack[..], n)
    requires (y == chain[n - 1].y + 1 || y + 1 == chain[n - 1].y) && chain[n - 1].left <= x <= chain[n - 1].right
    modifies pixels, stack
    ensures Recoloured(pixels, img, done', to)
    ensures |done'| > |done| && Inv(img, from, seed, done', spans + [span], stack[..], n + 1)
    ensures Deep(img, from, seed, done', chain + [span], stack[..], n + 1)
  {
    hide Inv, Cells, Connected, Recoloured, Chain, Deep, Tended, FramesOk, Tiles, Reached;
    PixelTells(pixels, img, done, from, to, y, x);
    ghost var frames := stack[..];
    var left, right := FloodFillLine(pixels, x, y, from, to, img, done);
    Push(img, from, seed, done, spans, frames, n, y, x, left, right);
    InvFacts(img, from, seed, done, spans, frames, n);
    FilledIsMaximal(img, from, done, frames, n, Span(y, left, right));
    assert Open(img, from, done, (y, left));
    ChainLength(img, from, seed, done, chain, frames, n);
    DeepMore(img, from, seed, done, done + Cells(y, left, right + 1), chain, frames, n, Span(y, left, right));
    done' := done + Cells(y, left, right + 1);
    span := Span(y, left, right);
    stack[n] := Frame(y, right, left, left);
    assert stack[..] == frames[n := Frame(y, right, left, left)];
  }

  lemma ChainLength(img: Image, from: nat, seed: Point, done: set<Point>, chain: seq<Span>, stack: seq<Frame>, n: nat)
    requires Deep(img, from, seed, done, chain, stack, n)
    ensures 0 < n == |chain| <= |stack| && chain[n - 1].y == stack[n - 1].y && chain[n - 1].right == stack[n - 1].right
    ensures chain[n - 1].left <= stack[n - 1].leftUp && chain[n - 1].left <= stack[n - 1].leftDown
    ensures Chain(img, from, seed, chain)
  {
    assert OnStack(done, chain[n - 1], stack[n - 1]);
  }

  /** Looks along one side of the top span for an unfilled pixel; fills its run and pushes it. */
  method CallNext(pixels: array2<nat>, stack: array<Frame>, n: nat, direction: int, from: nat, to: nat,
                  ghost img: Image, ghost seed: Point, ghost done: set<Point>, ghost spans: seq<Span>, ghost chain: seq<Span>)
    returns (found: bool, span: Span, ghost done': set<Point>)
    requires from != to && 0 < n < stack.Length && (direction == -1 || direction == 1)
    requires Deep(img, from, seed, done, chain, stack[..], n)
    requires Recoloured(pixels, img, done, to) && Inv(img, from, seed, done, spans, stack[..], n)
    requires 0 <= stack[n - 1].y + direction < pixels.Length0
    modifies pixels, stack
    ensures Recoloured(pixels, img, done', to)
    ensures !found ==>
      && done' == done && Inv(img, from, seed, done, spans, stack[..], n) && Deep(img, from, seed, done, chain, stack[..], n)
      && Left(stack[n - 1], direction) > stack[n - 1].right && stack[n - 1].y == old(stack[n - 1].y)
      && stack[n - 1].right == old(stack[n - 1].right) && Left(stack[n - 1], -direction) == old(Left(stack[n - 1], -direction))
    ensures found ==> |done'| > |done| && Inv(img, from, seed, done', spans + [span], stack[..], n + 1)
    ensures found ==> Deep(img, from, seed, done', chain + [span], stack[..], n + 1)
  {
    hide Inv, Cells, Connected, Recoloured, Reached, FramesOk, Tended, Tiles, Coloured, Open, Deep, Chain;
    ghost var f0 := stack[n - 1];
    span, done' := Span(0, 0, 0), done;
    while Left(stack[n - 1], direction) <= stack[n - 1].right
      invariant Recoloured(pixels, img, done, to) && Inv(img, from, seed, done, spans, stack[..], n)
      invariant Deep(img, from, seed, done, chain, stack[..], n)
      invariant stack[n - 1].y == f0.y && stack[n - 1].right == f0.right
      invariant Left(stack[n - 1], -direction) == Left(f0, -direction)
      decreases stack[n - 1].right + 1 - Left(stack[n - 1], direction)
    {
      ghost var frames := stack[..];
      var x, y := Left(stack[n - 1], direction), stack[n - 1].y + direction;
      InvFacts(img, from, seed, done, spans, frames, n);
      RowWidth(pixels, img, done, to, f0.y);
      PixelTells(pixels, img, done, from, to, y, x);
      if pixels[y, x] == from {
        OpenColoured(img, from, done, (y, x));
        FrameConnected(img, from, seed, done, frames, n, direction, x);
        ChainLength(img, from, seed, done, chain, frames, n);
        span, done' := FillNext(pixels, stack, n, y, x, from, to, img, seed, done, spans, chain);
        return true, span, done';
      }
      Advance(img, from, seed, done, spans, frames, n, direction);
      DeepAdvance(img, from, seed, done, chain, frames, n, direction);
      stack[n - 1] := Advanced(stack[n - 1], direction);
      assert stack[..] == frames[n - 1 := Advanced(frames[n - 1], direction)];
    }
    found := false;
  }

  /** Pushes a run from the row above or below the top span; with none left there the top span may go. */
  method CallNeighbours(pixels: array2<nat>, stack: array<Frame>, n: nat, from: nat, to: nat,
                        ghost img: Image, ghost seed: Point, ghost done: set<Point>, ghost spans: seq<Span>, ghost chain: seq<Span>)
    returns (found: bool, span: Span, ghost done': set<Point>)
    requires from != to && 0 < n < stack.Length && Deep(img, from, seed, done, chain, stack[..], n)
    requires Recoloured(pixels, img, done, to) && Inv(img, from, seed, done, spans, stack[..], n)
    modifies pixels, stack
    ensures Recoloured(pixels, img, done', to)
    ensures !found ==>
      && done' == done && Inv(img, from, seed, done, spans, stack[..], n - 1) && Deep(img, from, seed, done, chain, stack[..], n)
    ensures found ==> |done'| > |done| && Inv(img, from, seed, done', spans + [span], stack[..], n + 1)
    ensures found ==> Deep(img, from, seed, done', chain + [span], stack[..], n + 1)
  {
    hide Inv, Recoloured, Reached, FramesOk, Tended, Tiles, Deep;
    InvFacts(img, from, seed, done, spans, stack[..], n);
    RowWidth(pixels, img, done, to, stack[n - 1].y);
    found, done' := false, done;
    if stack[n - 1].y > 0 {
      found, span, done' := CallNext(pixels, stack, n, -1, from, to, img, seed, done, spans, chain);
      if found {
        return;
      }
    }
    if stack[n - 1].y < pixels.Length0 - 1 {
      found, span, done' := CallNext(pixels, stack, n, 1, from, to, img, seed, done, spans, chain);
      if found {
        return;
      }
    }
    span := Span(0, 0, 0);
    Pop(img, from, seed, done, spans, stack[..], n);
  }

  lemma RowWidth(pixels: array2<nat>, img: Image, done: set<Point>, to: nat, y: nat)
    requires Recoloured(pixels, img, done, to)
    ensures |img| == pixels.Length0 && (y < |img| ==> |img[y]| == pixels.Length1)
  {
  }

  lemma OpenColoured(img: Image, from: nat, done: set<Point>, p: Point)
    ensures Open(img, from, done, p) == (Coloured(img, from, p) && p !in done)
  {
  }

  lemma InvFacts(img: Image, from: nat, seed: Point, done: set<Point>, spans: seq<Span>, stack: seq<Frame>, n: nat)
    requires Inv(img, from, seed, done, spans, stack, n)
    ensures Reached(img, from, seed, done) && FramesOk(img, done, stack, n) && Tiles(spans, done) && seed in done
    ensures Tended(img, from, done, stack, n)
    ensures 0 < n ==> stack[n - 1].y < |img| && stack[n - 1].right < |img[stack[n - 1].y]|
  {
    hide Reached, Tended, Tiles;
    if 0 < n {
      assert FrameOk(img, done, stack[n - 1]);
    }
  }

  // ---- termination -----------------------------------------------------------------------------------------------------------------

  function AllCells(h: nat, w: nat): (cells: set<Point>)
    ensures forall p: Point :: p in cells <==> 0 <= p.0 < h && 0 <= p.1 < w
  {
    if h == 0 then {} else AllCells(h - 1, w) + Cells(h - 1, 0, w)
  }

  lemma {:induction false} SubsetSize(a: set<Point>, b: set<Point>)
    requires a <= b
    ensures |a| <= |b|
    decreases |a|
  {
    if a != {} {
      var p :| p in a;
      SubsetSize(a - {p}, b - {p});
    }
  }

  lemma DoneBounded(img: Image, h: nat, w: nat, from: nat, seed: Point, done: set<Point>)
    requires Rectangle(img, h, w) && Reached(img, from, seed, done)
    ensures |done| <= |AllCells(h, w)|
  {
    forall p: Point | p in done ensures p in AllCells(h, w) {
      var path :| Path(img, from, path) && path[0] == seed && path[|path| - 1] == p;
      assert Coloured(img, from, path[|path| - 1]);
    }
    SubsetSize(done, AllCells(h, w));
  }

  /** Exactly the connected component. */
  ghost predicate Component(img: Image, from: nat, seed: Point, done: set<Point>) {
    forall p: Point :: p in done <==> Connected(img, from, seed, p)
  }

  /** With a pixel the component has every pixel of its colour above, below, to the left and to the right of it. */
  lemma FourNeighbours(img: Image, from: nat, seed: Point, done: set<Point>, y: int, x: int)
    requires Component(img, from, seed, done) && (y, x) in done
    ensures 0 <= y < |img| && 0 <= x < |img[y]| && img[y][x] == from
    ensures y > 0 && x < |img[y - 1]| && img[y - 1][x] == from ==> (y - 1, x) in done
    ensures y + 1 < |img| && x < |img[y + 1]| && img[y + 1][x] == from ==> (y + 1, x) in done
    ensures x > 0 && img[y][x - 1] == from ==> (y, x - 1) in done
    ensures x + 1 < |img[y]| && img[y][x + 1] == from ==> (y, x + 1) in done
  {
    hide Connected;
    ConnectedColoured(img, from, seed, (y, x));
    forall q: Point | Coloured(img, from, q) && Adjacent((y, x), q) ensures q in done {
      NeighbourConnected(img, from, seed, (y, x), q);
    }
    assert Adjacent((y, x), (y - 1, x)) && Adjacent((y, x), (y + 1, x)) && Adjacent((y, x), (y, x - 1)) && Adjacent((y, x), (y, x + 1));
  }

  lemma ConnectedColoured(img: Image, from: nat, seed: Point, p: Point)
    requires Connected(img, from, seed, p)
    ensures Coloured(img, from, p)
  {
  }

  /** Two pixels that touch only at a corner are not connected. */
  lemma CornersApart()
    ensures !Connected([[1, 0], [0, 1]], 1, (0, 0), (1, 1))
  {
    hide Connected;
    var img, done := [[1, 0], [0, 1]], {(0, 0)};
    assert Closed(img, 1, done);
    if Connected(img, 1, (0, 0), (1, 1)) {
      ClosedIsComponent(img, 1, (0, 0), done, (1, 1));
      assert false;
    }
  }

  lemma WholeComponent(img: Image, from: nat, seed: Point, done: set<Point>, spans: seq<Span>, stack: seq<Frame>)
    requires Inv(img, from, seed, done, spans, stack, 0)
    ensures Component(img, from, seed, done)
  {
    hide Connected, Closed, FramesOk, Tiles;
    TendedClosed(img, from, done, stack);
    forall p: Point | Connected(img, from, seed, p) ensures p in done {
      ClosedIsComponent(img, from, seed, done, p);
    }
  }

  method Start(pixels: array2<nat>, stack: array<Frame>, x0: nat, y0: nat, from: nat, to: nat, ghost img: Image)
    returns (span: Span, ghost done: set<Point>)
    requires from != to && y0 < pixels.Length0 && x0 < pixels.Length1 && pixels[y0, x0] == from && stack.Length > 0
    requires Recoloured(pixels, img, {}, to)
    modifies pixels, stack
    ensures Recoloured(pixels, img, done, to) && Inv(img, from, (y0, x0), done, [span], stack[..], 1)
    ensures Deep(img, from, (y0, x0), done, [span], stack[..], 1)
  {
    hide Cells, Connected, Deep, Inv;
    PixelTells(pixels, img, {}, from, to, y0, x0);
    ghost var frames := stack[..];
    var left, right := FloodFillLine(pixels, x0, y0, from, to, img, {});
    stack[0] := Frame(y0, right, left, left);
    span := Span(y0, left, right);
    done := Cells(y0, left, right + 1);
    assert {} + done == done;
    FirstInv(img, from, y0, x0, stack[..], left, right);
    FirstDeep(img, from, y0, x0, stack[..], left, right);
  }

  lemma FirstDeep(img: Image, from: nat, y: nat, x: nat, stack: seq<Frame>, left: nat, right: nat)
    requires |stack| > 0 && left <= x <= right && stack[0] == Frame(y, right, left, left)
    requires forall i: nat :: left <= i <= right ==> Open(img, from, {}, (y, i))
    requires !Open(img, from, {}, (y, left - 1)) && !Open(img, from, {}, (y, right + 1))
    ensures Deep(img, from, (y, x), Cells(y, left, right + 1), [Span(y, left, right)], stack, 1)
  {
    hide Connected, Coloured, Open, MaximalRun, Deep;
    NothingYet(img, from, (y, x), stack);
    FilledIsMaximal(img, from, {}, stack, 0, Span(y, left, right));
    DeepStart(img, from, (y, x), Cells(y, left, right + 1), stack, Span(y, left, right));
  }

  lemma FirstInv(img: Image, from: nat, y: nat, x: nat, stack: seq<Frame>, left: nat, right: nat)
    requires |stack| > 0 && left <= x <= right && stack[0] == Frame(y, right, left, left)
    requires forall i: nat :: left <= i <= right ==> Open(img, from, {}, (y, i))
    requires !Open(img, from, {}, (y, left - 1)) && !Open(img, from, {}, (y, right + 1))
    ensures Inv(img, from, (y, x), Cells(y, left, right + 1), [Span(y, left, right)], stack, 1)
  {
    hide Cells, Connected, Coloured, Tended, FramesOk, Reached, Tiles;
    NothingYet(img, from, (y, x), stack);
    assert Open(img, from, {}, (y, x)) && Open(img, from, {}, (y, right));
    OpenInside(img, from, {}, (y, right));
    SeedConnected(img, from, (y, x));
    var done := Cells(y, left, right + 1);
    assert {} + done == done && [] + [Span(y, left, right)] == [Span(y, left, right)];
    OneMoreSpan([], {}, y, left, right);
    ReachMore(img, from, (y, x), {}, y, x, left, right);
    FramesMore(img, {}, stack, 0, y, left, right);
    TendedMore(img, from, {}, stack, 0, y, left, right);
    assert stack[0 := Frame(y, right, left, left)] == stack;
  }

  lemma NothingYet(img: Image, from: nat, seed: Point, stack: seq<Frame>)
    ensures Tiles([], {}) && Reached(img, from, seed, {}) && FramesOk(img, {}, stack, 0) && Tended(img, from, {}, stack, 0)
  {
  }

  lemma OpenInside(img: Image, from: nat, done: set<Point>, p: Point)
    requires Open(img, from, done, p)
    ensures Inside(img, p)
  {
  }

  /** Recolours pixels connected to the seed, span by span, until nothing is left or the stack is full.

      Every recoloured pixel is connected to the seed and reported in exactly one span.  It stops early only with a walk of
      touching runs as long as the stack; where no such walk starts at the seed, every connected pixel is recoloured. */
  method FloodFillSeed(pixels: array2<nat>, stack: array<Frame>, x0: nat, y0: nat, from: nat, to: nat, ghost img: Image)
    returns (spans: seq<Span>, ghost complete: bool, ghost done: set<Point>, ghost deepest: seq<Span>)
    requires from != to && y0 < pixels.Length0 && x0 < pixels.Length1 && pixels[y0, x0] == from && stack.Length > 0
    requires Recoloured(pixels, img, {}, to)
    modifies pixels, stack
    ensures Recoloured(pixels, img, done, to) && Tiles(spans, done)
    ensures (y0, x0) in done && Reached(img, from, (y0, x0), done)
    ensures complete ==> Component(img, from, (y0, x0), done)
    ensures !complete ==> Chain(img, from, (y0, x0), deepest) && |deepest| == stack.Length <= |spans|
    ensures (forall chain :: Chain(img, from, (y0, x0), chain) ==> |chain| < stack.Length) ==> Component(img, from, (y0, x0), done)
    ensures |Runs(img, from, pixels.Length1, (y0, x0))| < stack.Length ==> Component(img, from, (y0, x0), done)
    ensures stack.Length == 1 ==> |spans| == 1
  {
    hide Inv, Cells, Connected, Recoloured, Reached, Tended, Tiles, Component, Deep, Chain, Runs;
    ghost var seed: Point := (y0, x0);
    RowWidth(pixels, img, {}, to, y0);
    ghost var all := |AllCells(pixels.Length0, pixels.Length1)|;
    var span;
    span, done := Start(pixels, stack, x0, y0, from, to, img);
    spans, complete, deepest := [span], false, [span];
    var n: nat := 1;
    while true
      invariant 0 < n <= stack.Length && Recoloured(pixels, img, done, to) && Inv(img, from, seed, done, spans, stack[..], n)
      invariant Deep(img, from, seed, done, deepest, stack[..], n)
      invariant n <= |spans| && !complete && (stack.Length == 1 ==> |spans| == 1)
      decreases all - |done|, n
    {
      InvFacts(img, from, seed, done, spans, stack[..], n);
      Bounded(pixels, img, from, seed, done, to);
      if n == stack.Length {
        ChainLength(img, from, seed, done, deepest, stack[..], n);
        ChainWithin(pixels, img, from, seed, done, to, deepest);
        break;
      }
      var found;
      found, span, done := CallNeighbours(pixels, stack, n, from, to, img, seed, done, spans, deepest);
      if found {
        spans, n, deepest := spans + [span], n + 1, deepest + [span];
        continue;
      }
      if n > 1 {
        DeepLess(img, from, seed, done, deepest, stack[..], n);
        ChainLength(img, from, seed, done, deepest, stack[..], n);
        deepest := deepest[..n - 1];
        n := n - 1;
        continue;
      }
      complete := true;
      WholeComponent(img, from, seed, done, spans, stack[..]);
      break;
    }
  }

  lemma ChainWithin(pixels: array2<nat>, img: Image, from: nat, seed: Point, done: set<Point>, to: nat, chain: seq<Span>)
    requires Recoloured(pixels, img, done, to) && Chain(img, from, seed, chain)
    ensures |chain| <= |Runs(img, from, pixels.Length1, seed)|
  {
    ChainBound(img, from, pixels.Length0, pixels.Length1, seed, chain);
  }

  /** The stack that is allocated for images of h rows. */
  function StackSize(h: nat): nat {
    if h * 2 / 3 == 0 then 1 else h * 2 / 3
  }

  /** Two pixels, one above the other: the stack of such an image has one slot, and the second pixel stays as it was. */
  method TwoPixels(from: nat, to: nat) returns (pixels: array2<nat>, ghost img: Image, ghost done: set<Point>)
    requires from != to
    ensures pixels.Length0 == 2 && pixels.Length1 == 1 && pixels[0, 0] == to && pixels[1, 0] == from
    ensures img == [[from], [from]] && Recoloured(pixels, img, done, to)
    ensures (0, 0) in done && (1, 0) !in done && Connected(img, from, (0, 0), (1, 0)) && !Component(img, from, (0, 0), done)
  {
    hide Tiles, Component, Reached, Chain, Runs;
    img := [[from], [from]];
    pixels := new nat[2, 1]((i, j) => from);
    var stack := new Frame[StackSize(2)](i => Frame(0, 0, 0, 0));
    var spans;
    ghost var complete, deepest;
    spans, complete, done, deepest := FloodFillSeed(pixels, stack, 0, 0, from, to, img);
    OneSpan(spans, done, (0, 0));
    assert Path(img, from, [(0, 0), (1, 0)]);
    NotWhole(img, from, done);
  }

  /** One span covers one row. */
  lemma OneSpan(spans: seq<Span>, done: set<Point>, p: Point)
    requires Tiles(spans, done) && |spans| == 1 && p in done
    ensures forall q: Point :: q in done ==> q.0 == p.0
  {
    assert Covered(spans[..0]) == {};
  }

  lemma NotWhole(img: Image, from: nat, done: set<Point>)
    requires (1, 0) !in done && Connected(img, from, (0, 0), (1, 0))
    ensures !Component(img, from, (0, 0), done)
  {
    hide Connected;
  }

  lemma Bounded(pixels: array2<nat>, img: Image, from: nat, seed: Point, done: set<Point>, to: nat)
    requires Recoloured(pixels, img, done, to) && Reached(img, from, seed, done)
    ensures |done| <= |AllCells(pixels.Length0, pixels.Length1)|
  {
    DoneBounded(img, pixels.Length0, pixels.Length1, from, seed, done);
  }
}
