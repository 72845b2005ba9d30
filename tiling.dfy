/** The tile planner of seg.py: `iterate_bboxes` walks tile origins in
    row-major order (y outer, x inner, both stepping by the stride) and
    yields boxes clipped to the image. */
module Tiling {

  /** A bounding box `(x0, y0, x1, y1)`: pixels `x0 <= i < x1`, `y0 <= j < y1`. */
  datatype Box = Box(x0: int, y0: int, x1: int, y1: int)

  predicate Covers(b: Box, i: int, j: int) {
    b.x0 <= i < b.x1 && b.y0 <= j < b.y1
  }

  /** Two boxes share at least one pixel. */
  predicate Overlap(a: Box, b: Box) {
    a.x0 < b.x1 && b.x0 < a.x1 && a.y0 < b.y1 && b.y0 < a.y1
  }

  predicate PairwiseDisjoint(bs: seq<Box>) {
    forall a, b :: 0 <= a < b < |bs| ==> !Overlap(bs[a], bs[b])
  }

  /** The box lies inside a `w` by `h` image (it may be empty). */
  predicate InImage(b: Box, w: int, h: int) {
    0 <= b.x0 <= b.x1 <= w && 0 <= b.y0 <= b.y1 <= h
  }

  function Min(a: int, b: int): int {
    if a < b then a else b
  }

  /** The number of values `range(0, n, step)` yields. */
  function Steps(n: int, step: int): nat
    requires step >= 1
    decreases n
  {
    if n <= 0 then 0 else 1 + Steps(n - step, step)
  }

  /** Ceiling division of a natural number. */
  function CeilDiv(n: nat, step: int): nat
    requires step >= 1
  {
    (n + step - 1) / step
  }

  /** The inner loop of `iterate_bboxes`: the boxes of the row at `y`,
      from origin `x` on. */
  function RowFrom(w: nat, h: nat, tile: int, stride: int, y: nat, x: nat): seq<Box>
    requires stride >= 1
    decreases w - x
  {
    if x >= w then []
    else [Box(x, y, Min(x + tile, w), Min(y + tile, h))] + RowFrom(w, h, tile, stride, y, x + stride)
  }

  /** The outer loop of `iterate_bboxes`: the rows from origin `y` on. */
  function RowsFrom(w: nat, h: nat, tile: int, stride: int, y: nat): seq<Box>
    requires stride >= 1
    decreases h - y
  {
    if y >= h then []
    else RowFrom(w, h, tile, stride, y, 0) + RowsFrom(w, h, tile, stride, y + stride)
  }

  /** `iterate_bboxes` for a given integer stride, as a list. */
  function Plan(w: nat, h: nat, tile: int, stride: int): seq<Box>
    requires stride >= 1
  {
    RowsFrom(w, h, tile, stride, 0)
  }

  /** Reference definition: the box in tile row `r`, tile column `c`. */
  function BoxAt(w: nat, h: nat, tile: int, stride: int, r: nat, c: nat): Box {
    Box(c * stride, r * stride, Min(c * stride + tile, w), Min(r * stride + tile, h))
  }

  // ---------------------------------------------------------------------
  // From the overlap fraction to a plan, with Python's range() semantics

  /** Why no plan can be produced. */
  datatype PlanError =
    | ZeroStride  // `range` refuses a zero step (ValueError)

  datatype PlanResult = Planned(boxes: seq<Box>) | Failed(error: PlanError)

  /** Python's `int()` on a number: truncation toward zero. */
  function Trunc(v: real): (r: int)
    ensures v >= 0.0 ==> r as real <= v < r as real + 1.0
    ensures v < 0.0 ==> r as real - 1.0 < v <= r as real
  {
    if v >= 0.0 then v.Floor else -((-v).Floor)
  }

  /** `int(tile_size*(1-overlap))`, with the overlap as an exact real. */
  function Stride(tile: int, overlap: real): int {
    Trunc(tile as real * (1.0 - overlap))
  }

  /** `list(iterate_bboxes(w, h, tile, overlap))`: a zero step makes `range`
      raise; a negative step makes the outer range empty. */
  function IterateBoxes(w: nat, h: nat, tile: int, overlap: real): PlanResult {
    var stride := Stride(tile, overlap);
    if stride == 0 then Failed(ZeroStride)
    else if stride < 0 then Planned([])
    else Planned(Plan(w, h, tile, stride))
  }

  // ---------------------------------------------------------------------
  // Arithmetic helpers

  lemma MulLe(a: int, b: int, s: int)
    requires a <= b && s >= 0
    ensures a * s <= b * s
  {
  }

  lemma MulSucc(a: int, s: int)
    ensures (a + 1) * s == a * s + s
  {
  }

  /** Euclidean division is determined by the interval the dividend falls in. */
  lemma DivUnique(a: int, s: int, q: int)
    requires s >= 1 && q * s <= a < q * s + s
    ensures a / s == q && a % s == a - q * s
  {
    var d := a / s;
    if d > q {
      MulLe(q + 1, d, s);
      MulSucc(q, s);
      assert false;
    } else if d < q {
      MulLe(d + 1, q, s);
      MulSucc(d, s);
      assert false;
    }
  }

  lemma {:induction false} StepsIsCeil(n: int, step: int)
    requires step >= 1
    ensures n <= 0 ==> Steps(n, step) == 0
    ensures n > 0 ==> (Steps(n, step) - 1) * step < n <= Steps(n, step) * step
  {
    if n > 0 {
      StepsIsCeil(n - step, step);
    }
  }

  /** Every value `range(0, n, step)` yields is below `n`. */
  lemma {:induction false} StepsBound(n: int, step: int, c: nat)
    requires step >= 1 && c < Steps(n, step)
    ensures c * step < n
  {
    if c > 0 {
      StepsBound(n - step, step, c - 1);
    }
  }

  /** A point `0 <= i < n` lies in the step interval of some value of `range(0, n, step)`. */
  lemma {:induction false} StepsCover(n: int, step: int, i: int) returns (c: nat)
    requires step >= 1 && 0 <= i < n
    ensures c < Steps(n, step) && c * step <= i < c * step + step
  {
    if i < step {
      c := 0;
    } else {
      var c' := StepsCover(n - step, step, i - step);
      c := c' + 1;
    }
  }

  lemma {:induction false} StepsCeilDiv(n: nat, step: int)
    requires step >= 1
    ensures Steps(n, step) == CeilDiv(n, step)
  {
    if n > 0 {
      StepsIsCeil(n, step);
      var q := Steps(n, step);
      MulSucc(q - 1, step);
      DivUnique(n + step - 1, step, q);
    }
  }

  // ---------------------------------------------------------------------
  // The plan equals its closed form

  lemma {:induction false} RowFromLength(w: nat, h: nat, tile: int, stride: int, y: nat, x: nat)
    requires stride >= 1
    ensures |RowFrom(w, h, tile, stride, y, x)| == Steps(w - x, stride)
    decreases w - x
  {
    if x < w {
      RowFromLength(w, h, tile, stride, y, x + stride);
    }
  }

  lemma {:induction false} RowFromAt(w: nat, h: nat, tile: int, stride: int, y: nat, x: nat, m: nat)
    requires stride >= 1 && m < |RowFrom(w, h, tile, stride, y, x)|
    ensures RowFrom(w, h, tile, stride, y, x)[m]
         == Box(x + m * stride, y, Min(x + m * stride + tile, w), Min(y + tile, h))
    decreases m
  {
    if m > 0 {
      RowFromAt(w, h, tile, stride, y, x + stride, m - 1);
      assert x + stride + (m - 1) * stride == x + m * stride;
    }
  }

  lemma {:induction false} RowsFromLength(w: nat, h: nat, tile: int, stride: int, y: nat)
    requires stride >= 1
    ensures |RowsFrom(w, h, tile, stride, y)| == Steps(h - y, stride) * Steps(w, stride)
    decreases h - y
  {
    if y < h {
      RowFromLength(w, h, tile, stride, y, 0);
      RowsFromLength(w, h, tile, stride, y + stride);
      var nx := Steps(w, stride);
      assert Steps(h - y, stride) * nx == nx + Steps(h - y - stride, stride) * nx;
    }
  }

  lemma {:induction false} RowsFromAt(w: nat, h: nat, tile: int, stride: int, y: nat, r: nat, c: nat)
    requires stride >= 1 && r < Steps(h - y, stride) && c < Steps(w, stride)
    ensures r * Steps(w, stride) + c < |RowsFrom(w, h, tile, stride, y)|
    ensures RowsFrom(w, h, tile, stride, y)[r * Steps(w, stride) + c]
         == Box(c * stride, y + r * stride, Min(c * stride + tile, w), Min(y + r * stride + tile, h))
    decreases r
  {
    var nx := Steps(w, stride);
    RowFromLength(w, h, tile, stride, y, 0);
    var row, rest := RowFrom(w, h, tile, stride, y, 0), RowsFrom(w, h, tile, stride, y + stride);
    assert RowsFrom(w, h, tile, stride, y) == row + rest;
    if r == 0 {
      RowFromAt(w, h, tile, stride, y, 0, c);
    } else {
      RowsFromAt(w, h, tile, stride, y + stride, r - 1, c);
      MulSucc(r - 1, nx);
      MulSucc(r - 1, stride);
      assert r * nx + c == nx + ((r - 1) * nx + c);
    }
  }

  /** Position `r * nx + c` orders (row, column) pairs lexicographically. */
  lemma LexIndex(nx: nat, r: nat, c: nat, r': nat, c': nat)
    requires c < nx && c' < nx && r * nx + c < r' * nx + c'
    ensures r < r' || (r == r' && c < c')
  {
    if r > r' {
      MulLe(r' + 1, r, nx);
      MulSucc(r', nx);
    }
  }

  /** Boxes in different rows or columns are ordered row-major by their origins. */
  lemma BoxAtOrder(w: nat, h: nat, tile: int, stride: int, r: nat, c: nat, r': nat, c': nat)
    requires stride >= 1 && (r < r' || (r == r' && c < c'))
    ensures var p, q := BoxAt(w, h, tile, stride, r, c), BoxAt(w, h, tile, stride, r', c');
      p.y0 < q.y0 || (p.y0 == q.y0 && p.x0 < q.x0)
  {
    if r < r' {
      MulLe(r + 1, r', stride);
      MulSucc(r, stride);
    } else {
      MulLe(c + 1, c', stride);
      MulSucc(c, stride);
    }
  }

  /** With the stride equal to the tile, boxes at distinct grid cells share no pixel. */
  lemma BoxAtDisjoint(w: nat, h: nat, tile: int, r: nat, c: nat, r': nat, c': nat)
    requires tile >= 1 && (r, c) != (r', c')
    ensures !Overlap(BoxAt(w, h, tile, tile, r, c), BoxAt(w, h, tile, tile, r', c'))
  {
    if c < c' {
      MulLe(c + 1, c', tile);
      MulSucc(c, tile);
    } else if c' < c {
      MulLe(c' + 1, c, tile);
      MulSucc(c', tile);
    } else if r < r' {
      MulLe(r + 1, r', tile);
      MulSucc(r, tile);
    } else {
      MulLe(r' + 1, r, tile);
      MulSucc(r', tile);
    }
  }

  /** `iterate_bboxes` yields `ceil(h/stride) * ceil(w/stride)` boxes. */
  lemma PlanLength(w: nat, h: nat, tile: int, stride: int)
    requires stride >= 1
    ensures |Plan(w, h, tile, stride)| == Steps(h, stride) * Steps(w, stride)
    ensures |Plan(w, h, tile, stride)| == CeilDiv(h, stride) * CeilDiv(w, stride)
  {
    RowsFromLength(w, h, tile, stride, 0);
    StepsCeilDiv(w, stride);
    StepsCeilDiv(h, stride);
  }

  /** The box of tile row `r`, column `c` sits at position `r * nx + c`. */
  lemma PlanAt(w: nat, h: nat, tile: int, stride: int, r: nat, c: nat)
    requires stride >= 1 && r < Steps(h, stride) && c < Steps(w, stride)
    ensures r * Steps(w, stride) + c < |Plan(w, h, tile, stride)|
    ensures Plan(w, h, tile, stride)[r * Steps(w, stride) + c] == BoxAt(w, h, tile, stride, r, c)
  {
    RowsFromAt(w, h, tile, stride, 0, r, c);
  }

  /** Splits a position into a row and a column of `nx` columns. */
  lemma {:induction false} Decompose(k: nat, nx: nat) returns (r: nat, c: nat)
    requires nx >= 1
    ensures k == r * nx + c && c < nx
    decreases k
  {
    if k < nx {
      r, c := 0, k;
    } else {
      var r', c' := Decompose(k - nx, nx);
      r, c := r' + 1, c';
      MulSucc(r', nx);
    }
  }

  /** Every position of the plan holds the closed-form box of its row and column. */
  lemma PlanIndex(w: nat, h: nat, tile: int, stride: int, k: nat) returns (r: nat, c: nat)
    requires stride >= 1 && k < |Plan(w, h, tile, stride)|
    ensures r < Steps(h, stride) && c < Steps(w, stride)
    ensures k == r * Steps(w, stride) + c
    ensures Plan(w, h, tile, stride)[k] == BoxAt(w, h, tile, stride, r, c)
  {
    var nx, ny := Steps(w, stride), Steps(h, stride);
    PlanLength(w, h, tile, stride);
    r, c := Decompose(k, nx);
    if r >= ny {
      MulLe(ny, r, nx);
    }
    PlanAt(w, h, tile, stride, r, c);
  }

  // ---------------------------------------------------------------------
  // Properties of the plan

  /** Every box is non-empty, clipped to the image, at most `tile` on a side,
      and has its origin on the stride lattice. */
  lemma PlanBoxShape(w: nat, h: nat, tile: int, stride: int, k: nat)
    requires tile >= 1 && stride >= 1 && k < |Plan(w, h, tile, stride)|
    ensures var b := Plan(w, h, tile, stride)[k];
      0 <= b.x0 < b.x1 <= w && 0 <= b.y0 < b.y1 <= h &&
      b.x1 - b.x0 <= tile && b.y1 - b.y0 <= tile &&
      b.x0 % stride == 0 && b.y0 % stride == 0
  {
    var r, c := PlanIndex(w, h, tile, stride, k);
    StepsBound(w, stride, c);
    StepsBound(h, stride, r);
    DivUnique(c * stride, stride, c);
    DivUnique(r * stride, stride, r);
  }

  lemma PlanInImage(w: nat, h: nat, tile: int, stride: int)
    requires tile >= 1 && stride >= 1
    ensures forall k :: 0 <= k < |Plan(w, h, tile, stride)| ==> InImage(Plan(w, h, tile, stride)[k], w, h)
  {
    forall k | 0 <= k < |Plan(w, h, tile, stride)|
      ensures InImage(Plan(w, h, tile, stride)[k], w, h)
    {
      PlanBoxShape(w, h, tile, stride, k);
    }
  }

  /** Row-major order: an earlier box is on an earlier row, or on the same
      row further left. */
  lemma PlanRowMajor(w: nat, h: nat, tile: int, stride: int, a: nat, b: nat)
    requires stride >= 1 && a < b < |Plan(w, h, tile, stride)|
    ensures var p, q := Plan(w, h, tile, stride)[a], Plan(w, h, tile, stride)[b];
      p.y0 < q.y0 || (p.y0 == q.y0 && p.x0 < q.x0)
  {
    var r, c := PlanIndex(w, h, tile, stride, a);
    var r', c' := PlanIndex(w, h, tile, stride, b);
    LexIndex(Steps(w, stride), r, c, r', c');
    BoxAtOrder(w, h, tile, stride, r, c, r', c');
  }

  /** With a stride no larger than the tile, every pixel of the image is in some box. */
  lemma PlanCovers(w: nat, h: nat, tile: int, stride: int, i: int, j: int) returns (k: nat)
    requires 1 <= stride <= tile && 0 <= i < w && 0 <= j < h
    ensures k < |Plan(w, h, tile, stride)| && Covers(Plan(w, h, tile, stride)[k], i, j)
  {
    var c := StepsCover(w, stride, i);
    var r := StepsCover(h, stride, j);
    PlanAt(w, h, tile, stride, r, c);
    k := r * Steps(w, stride) + c;
  }

  /** With the stride equal to the tile (overlap 0), no two boxes share a pixel. */
  lemma PlanDisjoint(w: nat, h: nat, tile: int)
    requires tile >= 1
    ensures PairwiseDisjoint(Plan(w, h, tile, tile))
  {
    forall a, b | 0 <= a < b < |Plan(w, h, tile, tile)|
      ensures !Overlap(Plan(w, h, tile, tile)[a], Plan(w, h, tile, tile)[b])
    {
      var r, c := PlanIndex(w, h, tile, tile, a);
      var r', c' := PlanIndex(w, h, tile, tile, b);
      BoxAtDisjoint(w, h, tile, r, c, r', c');
    }
  }

  /** With overlap 0 and a positive tile size the stride is the tile size. */
  lemma NoOverlapPlan(w: nat, h: nat, tile: int)
    requires tile >= 1
    ensures IterateBoxes(w, h, tile, 0.0) == Planned(Plan(w, h, tile, tile))
  {
    assert tile as real * (1.0 - 0.0) == tile as real;
  }

  /** For an overlap in [0, 1) the planner fails exactly when
      `tile * (1 - overlap) < 1`, and otherwise uses a stride between 1 and the tile. */
  lemma OverlapStride(w: nat, h: nat, tile: int, overlap: real)
    requires tile >= 1 && 0.0 <= overlap < 1.0
    ensures IterateBoxes(w, h, tile, overlap).Failed? <==> tile as real * (1.0 - overlap) < 1.0
    ensures IterateBoxes(w, h, tile, overlap).Planned? ==>
      1 <= Stride(tile, overlap) <= tile &&
      IterateBoxes(w, h, tile, overlap).boxes == Plan(w, h, tile, Stride(tile, overlap))
  {
    var v := tile as real * (1.0 - overlap);
    assert 0.0 < v <= tile as real;
  }

  /** The worked example: a 4096 x 4096 image in 2048-pixel tiles. */
  lemma FourTiles()
    ensures IterateBoxes(4096, 4096, 2048, 0.0) == Planned([
      Box(0, 0, 2048, 2048), Box(2048, 0, 4096, 2048),
      Box(0, 2048, 2048, 4096), Box(2048, 2048, 4096, 4096)])
  {
    NoOverlapPlan(4096, 4096, 2048);
    assert RowFrom(4096, 4096, 2048, 2048, 0, 0) == [Box(0, 0, 2048, 2048), Box(2048, 0, 4096, 2048)];
    assert RowFrom(4096, 4096, 2048, 2048, 2048, 0) == [Box(0, 2048, 2048, 4096), Box(2048, 2048, 4096, 4096)];
  }
}
