/** Submission and mask assembly of seg.py: every kept job is segmented in
    submission order, and each tile's labels, cast to `uint16`, overwrite the
    block `mask[x0:x1, y0:y1]` of a zero-initialised mask. */
module MaskAssembly {
  import opened Tiling
  import opened TileFilter

  /** Values a `uint16` mask can hold. */
  const LabelCount: int := 65536

  /** `astype(np.uint16)`: integers wrap modulo 2^16. */
  function U16(v: int): (r: int)
    ensures 0 <= r < LabelCount
    ensures 0 <= v < LabelCount ==> r == v
    ensures (v - r) % LabelCount == 0
  {
    v % LabelCount
  }

  /** A resolved entry of `results`: the box and the labels `mutex_ws` returned. */
  datatype TileResult = TileResult(box: Box, labels: seq<seq<int>>)

  /** The labels have the shape of the box, so the block assignment is defined. */
  predicate WellShaped(t: TileResult) {
    t.box.x0 <= t.box.x1 && t.box.y0 <= t.box.y1 &&
    IsGrid(t.labels, t.box.x1 - t.box.x0, t.box.y1 - t.box.y0)
  }

  /** The value the tile writes at pixel `(i, j)` of its box. */
  function TileValue(t: TileResult, i: int, j: int): int
    requires WellShaped(t) && Covers(t.box, i, j)
  {
    U16(t.labels[i - t.box.x0][j - t.box.y0])
  }

  /** The last tile written wins each pixel: the value at `(i, j)` after the
      tiles of `rs` have been written in order over the value `base`. */
  function Assembled(rs: seq<TileResult>, i: int, j: int, base: int): (v: int)
    requires forall k :: 0 <= k < |rs| ==> WellShaped(rs[k])
    ensures 0 <= base < LabelCount ==> 0 <= v < LabelCount
    ensures v == base || exists k :: 0 <= k < |rs| && Covers(rs[k].box, i, j) && v == TileValue(rs[k], i, j)
  {
    if rs == [] then base
    else
      var n := |rs| - 1;
      if Covers(rs[n].box, i, j) then TileValue(rs[n], i, j)
      else
        var v := Assembled(rs[..n], i, j, base);
        assert v != base ==> exists k :: 0 <= k < n && Covers(rs[k].box, i, j) && v == TileValue(rs[k], i, j);
        v
  }

  // ---------------------------------------------------------------------
  // Properties of the assembled value

  /** A pixel no tile covers keeps its initial value. */
  lemma {:induction false} UncoveredUnchanged(rs: seq<TileResult>, i: int, j: int, base: int)
    requires forall k :: 0 <= k < |rs| ==> WellShaped(rs[k])
    requires forall k :: 0 <= k < |rs| ==> !Covers(rs[k].box, i, j)
    ensures Assembled(rs, i, j, base) == base
  {
    if rs != [] {
      UncoveredUnchanged(rs[..|rs| - 1], i, j, base);
    }
  }

  /** A covered pixel holds the value of the last tile, in submission order,
      that covers it. */
  lemma {:induction false} LastWriteWins(rs: seq<TileResult>, i: int, j: int, base: int, k: nat)
    requires forall m :: 0 <= m < |rs| ==> WellShaped(rs[m])
    requires k < |rs| && Covers(rs[k].box, i, j)
    requires forall m :: k < m < |rs| ==> !Covers(rs[m].box, i, j)
    ensures Assembled(rs, i, j, base) == TileValue(rs[k], i, j)
  {
    var n := |rs| - 1;
    if k < n {
      var front := rs[..n];
      assert forall m :: 0 <= m < n ==> front[m] == rs[m];
      LastWriteWins(front, i, j, base, k);
    }
  }

  /** Among the tiles covering a pixel, from position `k0` on, the last one. */
  lemma {:induction false} LastCovering(rs: seq<TileResult>, i: int, j: int, k0: nat) returns (k: nat)
    requires k0 < |rs| && Covers(rs[k0].box, i, j)
    ensures k0 <= k < |rs| && Covers(rs[k].box, i, j)
    ensures forall m :: k < m < |rs| ==> !Covers(rs[m].box, i, j)
    decreases |rs| - k0
  {
    if m :| k0 < m < |rs| && Covers(rs[m].box, i, j) {
      k := LastCovering(rs, i, j, m);
    } else {
      k := k0;
    }
  }

  /** A pixel some tile covers holds a value that some covering tile wrote,
      never the initial value. */
  lemma CoveredTakesTileValue(rs: seq<TileResult>, i: int, j: int, base: int, k0: nat) returns (k: nat)
    requires forall m :: 0 <= m < |rs| ==> WellShaped(rs[m])
    requires k0 < |rs| && Covers(rs[k0].box, i, j)
    ensures k < |rs| && Covers(rs[k].box, i, j)
    ensures Assembled(rs, i, j, base) == TileValue(rs[k], i, j)
  {
    k := LastCovering(rs, i, j, k0);
    LastWriteWins(rs, i, j, base, k);
  }

  /** The boxes of the results. */
  function Boxes(rs: seq<TileResult>): (bs: seq<Box>)
    ensures |bs| == |rs| && forall k :: 0 <= k < |rs| ==> bs[k] == rs[k].box
  {
    seq(|rs|, k requires 0 <= k < |rs| => rs[k].box)
  }

  /** With pairwise disjoint boxes, the tile covering a pixel decides it,
      wherever that tile stands in the order. */
  lemma DisjointTileDecides(rs: seq<TileResult>, i: int, j: int, base: int, k: nat)
    requires forall m :: 0 <= m < |rs| ==> WellShaped(rs[m])
    requires PairwiseDisjoint(Boxes(rs))
    requires k < |rs| && Covers(rs[k].box, i, j)
    ensures Assembled(rs, i, j, base) == TileValue(rs[k], i, j)
  {
    forall m | k < m < |rs|
      ensures !Covers(rs[m].box, i, j)
    {
      assert !Overlap(Boxes(rs)[k], Boxes(rs)[m]);
    }
    LastWriteWins(rs, i, j, base, k);
  }

  /** With pairwise disjoint boxes, the order of submission does not matter:
      two lists holding the same tiles assemble the same mask. */
  lemma DisjointOrderIrrelevant(rs: seq<TileResult>, rs': seq<TileResult>, i: int, j: int, base: int)
    requires forall m :: 0 <= m < |rs| ==> WellShaped(rs[m])
    requires forall m :: 0 <= m < |rs'| ==> WellShaped(rs'[m])
    requires PairwiseDisjoint(Boxes(rs)) && PairwiseDisjoint(Boxes(rs'))
    requires multiset(rs) == multiset(rs')
    ensures Assembled(rs, i, j, base) == Assembled(rs', i, j, base)
  {
    if k :| 0 <= k < |rs| && Covers(rs[k].box, i, j) {
      DisjointTileDecides(rs, i, j, base, k);
      assert rs[k] in multiset(rs');
      var k' :| 0 <= k' < |rs'| && rs'[k'] == rs[k];
      DisjointTileDecides(rs', i, j, base, k');
    } else {
      UncoveredUnchanged(rs, i, j, base);
      forall k' | 0 <= k' < |rs'|
        ensures !Covers(rs'[k'].box, i, j)
      {
        assert rs'[k'] in multiset(rs);
      }
      UncoveredUnchanged(rs', i, j, base);
    }
  }

  // ---------------------------------------------------------------------
  // The mask buffer

  /** `mask[x0:x1, y0:y1] = labels.astype(np.uint16)` (python/seg.py:238-239). */
  method WriteTile(mask: array2<int>, t: TileResult)
    requires WellShaped(t) && InImage(t.box, mask.Length0, mask.Length1)
    modifies mask
    ensures forall i, j :: 0 <= i < mask.Length0 && 0 <= j < mask.Length1 ==>
      mask[i, j] == if Covers(t.box, i, j) then TileValue(t, i, j) else old(mask[i, j])
  {
    var b := t.box;
    var i := b.x0;
    while i < b.x1
      invariant b.x0 <= i <= b.x1
      invariant forall p, q :: 0 <= p < mask.Length0 && 0 <= q < mask.Length1 ==>
        mask[p, q] == if b.x0 <= p < i && b.y0 <= q < b.y1 then TileValue(t, p, q) else old(mask[p, q])
    {
      var j := b.y0;
      while j < b.y1
        invariant b.y0 <= j <= b.y1
        invariant forall p, q :: 0 <= p < mask.Length0 && 0 <= q < mask.Length1 ==>
          mask[p, q] == if (b.x0 <= p < i && b.y0 <= q < b.y1) || (p == i && b.y0 <= q < j)
                        then TileValue(t, p, q) else old(mask[p, q])
      {
        mask[i, j] := U16(t.labels[i - b.x0][j - b.y0]);
        j := j + 1;
      }
      i := i + 1;
    }
  }

  /** The assembly loop (python/seg.py:237-239): write every result in order. */
  method Assemble(mask: array2<int>, rs: seq<TileResult>)
    requires forall k :: 0 <= k < |rs| ==> WellShaped(rs[k]) && InImage(rs[k].box, mask.Length0, mask.Length1)
    modifies mask
    ensures forall i, j :: 0 <= i < mask.Length0 && 0 <= j < mask.Length1 ==>
      mask[i, j] == Assembled(rs, i, j, old(mask[i, j]))
  {
    var k := 0;
    while k < |rs|
      invariant 0 <= k <= |rs|
      invariant forall i, j :: 0 <= i < mask.Length0 && 0 <= j < mask.Length1 ==>
        mask[i, j] == Assembled(rs[..k], i, j, old(mask[i, j]))
    {
      WriteTile(mask, rs[k]);
      assert rs[..k + 1][..k] == rs[..k];
      k := k + 1;
    }
    assert rs[..k] == rs;
  }

  // ---------------------------------------------------------------------
  // Submission

  /** The segmentation function returns labels shaped like its input. */
  ghost predicate ShapePreserving(segment: seq<seq<real>> -> seq<seq<int>>) {
    forall g: seq<seq<real>>, w: nat, h: nat :: IsGrid(g, w, h) ==> IsGrid(segment(g), w, h)
  }

  /** The results, in submission order, with every job segmented by `segment`. */
  function Submitted(jobs: seq<Job>, segment: seq<seq<real>> -> seq<seq<int>>): (rs: seq<TileResult>)
    ensures |rs| == |jobs|
    ensures forall k :: 0 <= k < |jobs| ==> rs[k] == TileResult(jobs[k].box, segment(jobs[k].block))
  {
    seq(|jobs|, k requires 0 <= k < |jobs| => TileResult(jobs[k].box, segment(jobs[k].block)))
  }

  /** The submission loop (python/seg.py:232-235), with the pool taken as a
      sequential map: the `k`-th result belongs to the `k`-th job. */
  method Submit(jobs: seq<Job>, segment: seq<seq<real>> -> seq<seq<int>>) returns (rs: seq<TileResult>)
    ensures |rs| == |jobs|
    ensures forall k :: 0 <= k < |jobs| ==>
      rs[k].box == jobs[k].box && rs[k].labels == segment(jobs[k].block)
  {
    rs := [];
    var k := 0;
    while k < |jobs|
      invariant 0 <= k <= |jobs| && |rs| == k
      invariant forall m :: 0 <= m < k ==> rs[m] == TileResult(jobs[m].box, segment(jobs[m].block))
    {
      rs := rs + [TileResult(jobs[k].box, segment(jobs[k].block))];
      k := k + 1;
    }
  }

  /** Jobs cut from the prediction yield results that can be written into
      the mask, when the boxes lie inside the image. */
  lemma SubmittedFit(pred: seq<seq<real>>, w: nat, h: nat, boxes: seq<Box>,
                     segment: seq<seq<real>> -> seq<seq<int>>)
    requires forall k :: 0 <= k < |boxes| ==> InImage(boxes[k], w, h)
    requires ShapePreserving(segment)
    ensures var rs := Submitted(Prepared(pred, boxes), segment);
      forall k :: 0 <= k < |rs| ==> WellShaped(rs[k]) && InImage(rs[k].box, w, h)
  {
    PreparedIsSubsequence(pred, boxes);
    var jobs := Prepared(pred, boxes);
    var idx := KeptIndices(pred, boxes);
    var rs := Submitted(jobs, segment);
    forall k | 0 <= k < |rs|
      ensures WellShaped(rs[k]) && InImage(rs[k].box, w, h)
    {
      var b := boxes[idx[k]];
      assert jobs[k] == Job(b, Block(pred, b));
      assert IsGrid(Block(pred, b), b.x1 - b.x0, b.y1 - b.y0);
    }
  }

  /** Every tile result is shaped like its box. */
  lemma SubmittedShaped(pred: seq<seq<real>>, boxes: seq<Box>, segment: seq<seq<real>> -> seq<seq<int>>)
    requires ShapePreserving(segment)
    ensures var rs := Submitted(Prepared(pred, boxes), segment);
      forall k :: 0 <= k < |rs| ==> WellShaped(rs[k])
  {
    PreparedIsSubsequence(pred, boxes);
    var jobs := Prepared(pred, boxes);
    var idx := KeptIndices(pred, boxes);
    var rs := Submitted(jobs, segment);
    forall k | 0 <= k < |rs|
      ensures WellShaped(rs[k])
    {
      var b := boxes[idx[k]];
      assert IsGrid(Block(pred, b), b.x1 - b.x0, b.y1 - b.y0);
    }
  }

  // ---------------------------------------------------------------------
  // One parameter combination

  /** The mask the tiled pipeline produces at pixel `(i, j)`. */
  function MaskValue(pred: seq<seq<real>>, boxes: seq<Box>,
                     segment: seq<seq<real>> -> seq<seq<int>>, i: int, j: int): int
    requires ShapePreserving(segment)
  {
    var rs := Submitted(Prepared(pred, boxes), segment);
    assert forall k :: 0 <= k < |rs| ==> WellShaped(rs[k]) by {
      SubmittedShaped(pred, boxes, segment);
      assert rs == Submitted(Prepared(pred, boxes), segment);
    }
    Assembled(rs, i, j, 0)
  }

  /** The body of the parameter loop for the tiled path (python/seg.py:207,
      213-239): a zero mask shaped like the prediction, the filtered jobs,
      their results in submission order, and the block writes. */
  method SegmentTiles(pred: seq<seq<real>>, w: nat, h: nat, boxes: seq<Box>,
                      segment: seq<seq<real>> -> seq<seq<int>>) returns (mask: array2<int>)
    requires IsGrid(pred, w, h) && forall k :: 0 <= k < |boxes| ==> InImage(boxes[k], w, h)
    requires ShapePreserving(segment)
    ensures fresh(mask) && mask.Length0 == w && mask.Length1 == h
    ensures forall i, j :: 0 <= i < w && 0 <= j < h ==> mask[i, j] == MaskValue(pred, boxes, segment, i, j)
  {
    mask := new int[w, h]((i, j) => 0);
    GridBoxes(pred, w, h, boxes);
    var jobs := PrepareTiles(pred, boxes);
    var rs := Submit(jobs, segment);
    assert rs == Submitted(jobs, segment);
    SubmittedFit(pred, w, h, boxes, segment);
    Assemble(mask, rs);
  }
}
