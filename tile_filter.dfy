/** The tile filter of seg.py: for each planned box, in plan order, copy the
    probability sub-block and keep the box as a job unless the block sums to
    less than 0.001. */
module TileFilter {
  import opened Tiling

  /** `np.sum(pred_) < 0.001` drops a tile. */
  const Threshold: real := 0.001

  /** `g` is a `w` by `h` array indexed `g[x][y]`. */
  predicate IsGrid<T>(g: seq<seq<T>>, w: int, h: int) {
    |g| == w && forall i :: 0 <= i < |g| ==> |g[i]| == h
  }

  /** The slice `g[x0:x1, y0:y1]` stays inside `g`. */
  predicate InGrid<T>(g: seq<seq<T>>, b: Box) {
    0 <= b.x0 <= b.x1 <= |g| && 0 <= b.y0 <= b.y1 &&
    forall i :: b.x0 <= i < b.x1 ==> b.y1 <= |g[i]|
  }

  lemma GridBoxes<T>(g: seq<seq<T>>, w: int, h: int, boxes: seq<Box>)
    requires IsGrid(g, w, h) && forall k :: 0 <= k < |boxes| ==> InImage(boxes[k], w, h)
    ensures forall k :: 0 <= k < |boxes| ==> InGrid(g, boxes[k])
  {
  }

  /** `np.copy(pred[0, x0:x1, y0:y1])`. */
  function Block(pred: seq<seq<real>>, b: Box): (blk: seq<seq<real>>)
    requires InGrid(pred, b)
    ensures IsGrid(blk, b.x1 - b.x0, b.y1 - b.y0)
    ensures forall i, j :: 0 <= i < b.x1 - b.x0 && 0 <= j < b.y1 - b.y0 ==>
      blk[i][j] == pred[b.x0 + i][b.y0 + j]
  {
    seq(b.x1 - b.x0, i requires 0 <= i < b.x1 - b.x0 => pred[b.x0 + i][b.y0..b.y1])
  }

  function RowSum(row: seq<real>): real {
    if row == [] then 0.0 else RowSum(row[..|row| - 1]) + row[|row| - 1]
  }

  /** `np.sum` of a block, in exact arithmetic. */
  function GridSum(g: seq<seq<real>>): real {
    if g == [] then 0.0 else GridSum(g[..|g| - 1]) + RowSum(g[|g| - 1])
  }

  /** The box lies in the prediction and its block has enough signal to be
      segmented. A box reaching outside the prediction counts as dropped
      here (numpy would clip the slice instead); boxes planned on an image
      of the prediction's own extent never do. */
  predicate Keep(pred: seq<seq<real>>, b: Box) {
    InGrid(pred, b) && !(GridSum(Block(pred, b)) < Threshold)
  }

  /** An entry of `data_to_process`: the box and its copied probabilities. */
  datatype Job = Job(box: Box, block: seq<seq<real>>)

  /** The jobs the filter loop appends, for a prefix of the plan. */
  function Prepared(pred: seq<seq<real>>, boxes: seq<Box>): seq<Job> {
    if boxes == [] then []
    else
      var b := boxes[|boxes| - 1];
      var jobs := Prepared(pred, boxes[..|boxes| - 1]);
      if Keep(pred, b) then jobs + [Job(b, Block(pred, b))] else jobs
  }

  /** Reference definition: the plan positions whose boxes are kept, in order. */
  function KeptIndices(pred: seq<seq<real>>, boxes: seq<Box>): seq<nat> {
    if boxes == [] then []
    else
      var n := |boxes| - 1;
      KeptIndices(pred, boxes[..n]) + (if Keep(pred, boxes[n]) then [n] else [])
  }

  /** The kept positions are positions of the plan, in increasing order. */
  lemma {:induction false} KeptIndicesIncrease(pred: seq<seq<real>>, boxes: seq<Box>)
    ensures forall m :: 0 <= m < |KeptIndices(pred, boxes)| ==> KeptIndices(pred, boxes)[m] < |boxes|
    ensures forall m, m' :: 0 <= m < m' < |KeptIndices(pred, boxes)| ==>
      KeptIndices(pred, boxes)[m] < KeptIndices(pred, boxes)[m']
  {
    if boxes != [] {
      var n := |boxes| - 1;
      KeptIndicesIncrease(pred, boxes[..n]);
      var idx := KeptIndices(pred, boxes[..n]);
      var all := KeptIndices(pred, boxes);
      assert all == idx + (if Keep(pred, boxes[n]) then [n] else []);
      forall m | 0 <= m < |all|
        ensures all[m] < |boxes| && (m < |idx| ==> all[m] == idx[m] && all[m] < n)
      {
      }
    }
  }

  /** A position is kept exactly when its box passes the filter. */
  lemma {:induction false} KeptIndicesExact(pred: seq<seq<real>>, boxes: seq<Box>)
    ensures forall k :: 0 <= k < |boxes| ==> (Keep(pred, boxes[k]) <==> k in KeptIndices(pred, boxes))
  {
    if boxes != [] {
      var n := |boxes| - 1;
      var front := boxes[..n];
      KeptIndicesIncrease(pred, front);
      KeptIndicesExact(pred, front);
      var idx := KeptIndices(pred, front);
      var tail := if Keep(pred, boxes[n]) then [n] else [];
      assert KeptIndices(pred, boxes) == idx + tail;
      assert n !in idx;
      forall k | 0 <= k < |boxes|
        ensures Keep(pred, boxes[k]) <==> k in KeptIndices(pred, boxes)
      {
        assert k in idx + tail <==> k in idx || k in tail;
        if k < n {
          assert front[k] == boxes[k];
        }
      }
    }
  }

  /** The job list is the subsequence of the plan at the kept positions. */
  lemma {:induction false} PreparedIsSubsequence(pred: seq<seq<real>>, boxes: seq<Box>)
    ensures var jobs, idx := Prepared(pred, boxes), KeptIndices(pred, boxes);
      |jobs| == |idx| &&
      forall m :: 0 <= m < |idx| ==>
        idx[m] < |boxes| && Keep(pred, boxes[idx[m]]) &&
        jobs[m] == Job(boxes[idx[m]], Block(pred, boxes[idx[m]]))
  {
    if boxes != [] {
      var n := |boxes| - 1;
      var front := boxes[..n];
      PreparedIsSubsequence(pred, front);
      KeptIndicesIncrease(pred, front);
      var jobs, idx := Prepared(pred, front), KeptIndices(pred, front);
      forall m | 0 <= m < |idx|
        ensures boxes[idx[m]] == front[idx[m]]
        ensures Prepared(pred, boxes)[m] == jobs[m] && KeptIndices(pred, boxes)[m] == idx[m]
      {
      }
    }
  }

  /** The kept position of a box that passes the filter. */
  lemma KeptPosition(pred: seq<seq<real>>, boxes: seq<Box>, k: nat) returns (m: nat)
    requires k < |boxes| && Keep(pred, boxes[k])
    ensures m < |KeptIndices(pred, boxes)| && KeptIndices(pred, boxes)[m] == k
  {
    KeptIndicesExact(pred, boxes);
    m :| 0 <= m < |KeptIndices(pred, boxes)| && KeptIndices(pred, boxes)[m] == k;
  }

  /** The filter loop (python/seg.py:216-223) as it runs. */
  method PrepareTiles(pred: seq<seq<real>>, boxes: seq<Box>) returns (jobs: seq<Job>)
    requires forall k :: 0 <= k < |boxes| ==> InGrid(pred, boxes[k])
    ensures jobs == Prepared(pred, boxes)
  {
    jobs := [];
    var k := 0;
    while k < |boxes|
      invariant 0 <= k <= |boxes|
      invariant jobs == Prepared(pred, boxes[..k])
    {
      var b := boxes[k];
      var block := Block(pred, b);
      assert boxes[..k + 1][..k] == boxes[..k];
      if GridSum(block) >= Threshold {
        jobs := jobs + [Job(b, block)];
      }
      k := k + 1;
    }
    assert boxes[..k] == boxes;
  }

  // ---------------------------------------------------------------------
  // What the threshold means

  lemma {:induction false} RowSumNonneg(row: seq<real>, j: int)
    requires forall q :: 0 <= q < |row| ==> row[q] >= 0.0
    ensures RowSum(row) >= 0.0
    ensures 0 <= j < |row| ==> RowSum(row) >= row[j]
  {
    if row != [] {
      var n := |row| - 1;
      RowSumNonneg(row[..n], if j < n then j else 0);
    }
  }

  lemma {:induction false} GridSumNonneg(g: seq<seq<real>>, i: int, j: int)
    requires forall p, q :: 0 <= p < |g| && 0 <= q < |g[p]| ==> g[p][q] >= 0.0
    ensures GridSum(g) >= 0.0
    ensures 0 <= i < |g| && 0 <= j < |g[i]| ==> GridSum(g) >= g[i][j]
  {
    if g != [] {
      var n := |g| - 1;
      RowSumNonneg(g[n], if i == n then j else 0);
      GridSumNonneg(g[..n], if i < n then i else 0, j);
    }
  }

  lemma {:induction false} RowSumZero(row: seq<real>)
    requires forall q :: 0 <= q < |row| ==> row[q] == 0.0
    ensures RowSum(row) == 0.0
  {
    if row != [] {
      RowSumZero(row[..|row| - 1]);
    }
  }

  lemma {:induction false} GridSumZero(g: seq<seq<real>>)
    requires forall p, q :: 0 <= p < |g| && 0 <= q < |g[p]| ==> g[p][q] == 0.0
    ensures GridSum(g) == 0.0
  {
    if g != [] {
      RowSumZero(g[|g| - 1]);
      GridSumZero(g[..|g| - 1]);
    }
  }

  /** A tile that is pure background (all probabilities 0) is dropped. */
  lemma BackgroundDropped(pred: seq<seq<real>>, b: Box)
    requires InGrid(pred, b)
    requires forall i, j :: Covers(b, i, j) ==> pred[i][j] == 0.0
    ensures !Keep(pred, b)
  {
    var blk := Block(pred, b);
    forall p, q | 0 <= p < |blk| && 0 <= q < |blk[p]|
      ensures blk[p][q] == 0.0
    {
      assert Covers(b, b.x0 + p, b.y0 + q);
    }
    GridSumZero(blk);
  }

  /** With non-negative probabilities, a tile holding one pixel of at least
      the threshold is kept. */
  lemma SignalKept(pred: seq<seq<real>>, b: Box, i: int, j: int)
    requires InGrid(pred, b) && Covers(b, i, j)
    requires forall p, q :: Covers(b, p, q) ==> pred[p][q] >= 0.0
    requires pred[i][j] >= Threshold
    ensures Keep(pred, b)
  {
    var blk := Block(pred, b);
    forall p, q | 0 <= p < |blk| && 0 <= q < |blk[p]|
      ensures blk[p][q] >= 0.0
    {
      assert Covers(b, b.x0 + p, b.y0 + q);
    }
    GridSumNonneg(blk, i - b.x0, j - b.y0);
  }
}
