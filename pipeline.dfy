/** The tiled path of one parameter combination, end to end: the mask that
    planning, filtering, submission and assembly produce, stated pixel by
    pixel in terms of the boxes and the prediction. */
module Pipeline {
  import opened Tiling
  import opened TileFilter
  import opened MaskAssembly

  /** The uint16 label the segmentation of box `b` assigns to pixel `(i, j)`. */
  function LabelAt(pred: seq<seq<real>>, b: Box, segment: seq<seq<real>> -> seq<seq<int>>, i: int, j: int): int
    requires InGrid(pred, b) && Covers(b, i, j) && ShapePreserving(segment)
  {
    var blk := Block(pred, b);
    assert IsGrid(segment(blk), b.x1 - b.x0, b.y1 - b.y0);
    U16(segment(blk)[i - b.x0][j - b.y0])
  }

  /** The `m`-th result is the segmentation of the `m`-th kept box. */
  lemma ResultAt(pred: seq<seq<real>>, boxes: seq<Box>, segment: seq<seq<real>> -> seq<seq<int>>, m: nat)
    requires m < |KeptIndices(pred, boxes)|
    ensures var idx, rs := KeptIndices(pred, boxes), Submitted(Prepared(pred, boxes), segment);
      |rs| == |idx| && idx[m] < |boxes| && Keep(pred, boxes[idx[m]]) &&
      rs[m] == TileResult(boxes[idx[m]], segment(Block(pred, boxes[idx[m]])))
  {
    PreparedIsSubsequence(pred, boxes);
  }

  /** Each pixel inside some kept box holds the label of the last kept box,
      in plan order, that covers it. */
  lemma KeptLastWins(pred: seq<seq<real>>, boxes: seq<Box>,
                     segment: seq<seq<real>> -> seq<seq<int>>, i: int, j: int, k: nat)
    requires ShapePreserving(segment)
    requires k < |boxes| && Covers(boxes[k], i, j) && Keep(pred, boxes[k])
    requires forall k' :: k < k' < |boxes| && Covers(boxes[k'], i, j) ==> !Keep(pred, boxes[k'])
    ensures MaskValue(pred, boxes, segment, i, j) == LabelAt(pred, boxes[k], segment, i, j)
  {
    var idx, rs := KeptIndices(pred, boxes), Submitted(Prepared(pred, boxes), segment);
    SubmittedShaped(pred, boxes, segment);
    var m := KeptPosition(pred, boxes, k);
    ResultAt(pred, boxes, segment, m);
    forall m' | m < m' < |rs|
      ensures !Covers(rs[m'].box, i, j)
    {
      ResultAt(pred, boxes, segment, m');
      KeptIndicesIncrease(pred, boxes);
      assert idx[m] < idx[m'];
    }
    LastWriteWins(rs, i, j, 0, m);
  }

  /** A pixel that no kept box covers stays 0. */
  lemma DroppedStaysZero(pred: seq<seq<real>>, boxes: seq<Box>,
                         segment: seq<seq<real>> -> seq<seq<int>>, i: int, j: int)
    requires ShapePreserving(segment)
    requires forall k :: 0 <= k < |boxes| && Covers(boxes[k], i, j) ==> !Keep(pred, boxes[k])
    ensures MaskValue(pred, boxes, segment, i, j) == 0
  {
    SubmittedShaped(pred, boxes, segment);
    PreparedIsSubsequence(pred, boxes);
    var rs := Submitted(Prepared(pred, boxes), segment);
    forall m | 0 <= m < |rs|
      ensures !Covers(rs[m].box, i, j)
    {
      ResultAt(pred, boxes, segment, m);
    }
    UncoveredUnchanged(rs, i, j, 0);
  }

  /** The mask the planned tiles produce at pixel `(i, j)`. */
  function PlanMaskValue(pred: seq<seq<real>>, w: nat, h: nat, tile: int, stride: int,
                         segment: seq<seq<real>> -> seq<seq<int>>, i: int, j: int): int
    requires stride >= 1 && ShapePreserving(segment)
  {
    MaskValue(pred, Plan(w, h, tile, stride), segment, i, j)
  }

  /** With overlap 0 the boxes are disjoint, so each pixel of the image is
      decided by the one box covering it: its label if the box was kept,
      0 if it was dropped. */
  lemma NoOverlapMask(pred: seq<seq<real>>, w: nat, h: nat, tile: int,
                      segment: seq<seq<real>> -> seq<seq<int>>, i: int, j: int) returns (k: nat)
    requires tile >= 1 && IsGrid(pred, w, h) && ShapePreserving(segment)
    requires 0 <= i < w && 0 <= j < h
    ensures var boxes := Plan(w, h, tile, tile);
      k < |boxes| && Covers(boxes[k], i, j) && InGrid(pred, boxes[k]) &&
      (forall k' :: 0 <= k' < |boxes| && Covers(boxes[k'], i, j) ==> k' == k) &&
      PlanMaskValue(pred, w, h, tile, tile, segment, i, j)
        == if Keep(pred, boxes[k]) then LabelAt(pred, boxes[k], segment, i, j) else 0
  {
    PlanInImage(w, h, tile, tile);
    PlanDisjoint(w, h, tile);
    var boxes := Plan(w, h, tile, tile);
    k := PlanCovers(w, h, tile, tile, i, j);
    GridBoxes(pred, w, h, boxes);
    forall k' | 0 <= k' < |boxes| && k' != k
      ensures !Covers(boxes[k'], i, j)
    {
      if k < k' {
        assert !Overlap(boxes[k], boxes[k']);
      } else {
        assert !Overlap(boxes[k'], boxes[k]);
      }
    }
    if Keep(pred, boxes[k]) {
      KeptLastWins(pred, boxes, segment, i, j, k);
    } else {
      DroppedStaysZero(pred, boxes, segment, i, j);
    }
  }

  /** When every tile is kept and the segmentation labels every pixel `v`,
      the assembled mask is `v` over the whole image (any stride up to the
      tile size). */
  lemma UniformLabels(pred: seq<seq<real>>, w: nat, h: nat, tile: int, stride: int,
                      segment: seq<seq<real>> -> seq<seq<int>>, v: int, i: int, j: int)
    requires 1 <= stride <= tile && ShapePreserving(segment)
    requires forall g: seq<seq<real>>, p, q :: 0 <= p < |segment(g)| && 0 <= q < |segment(g)[p]| ==> segment(g)[p][q] == v
    requires 0 <= v < LabelCount
    requires forall k :: 0 <= k < |Plan(w, h, tile, stride)| ==> Keep(pred, Plan(w, h, tile, stride)[k])
    requires 0 <= i < w && 0 <= j < h
    ensures PlanMaskValue(pred, w, h, tile, stride, segment, i, j) == v
  {
    var boxes := Plan(w, h, tile, stride);
    var k := PlanCovers(w, h, tile, stride, i, j);
    SubmittedShaped(pred, boxes, segment);
    var rs := Submitted(Prepared(pred, boxes), segment);
    var m := KeptPosition(pred, boxes, k);
    ResultAt(pred, boxes, segment, m);
    var m' := CoveredTakesTileValue(rs, i, j, 0, m);
    var b := rs[m'].box;
    assert rs[m'].labels[i - b.x0][j - b.y0] == v;
  }

  /** The worked example: a 4096 x 4096 image in 2048-pixel tiles with
      overlap 0, every tile kept and labelled 5, assembles to 5 everywhere. */
  lemma FourTilesOfFive(pred: seq<seq<real>>, segment: seq<seq<real>> -> seq<seq<int>>, i: int, j: int)
    requires ShapePreserving(segment)
    requires forall g: seq<seq<real>>, p, q :: 0 <= p < |segment(g)| && 0 <= q < |segment(g)[p]| ==> segment(g)[p][q] == 5
    requires forall k :: 0 <= k < |Plan(4096, 4096, 2048, 2048)| ==> Keep(pred, Plan(4096, 4096, 2048, 2048)[k])
    requires 0 <= i < 4096 && 0 <= j < 4096
    ensures IterateBoxes(4096, 4096, 2048, 0.0) == Planned(Plan(4096, 4096, 2048, 2048))
    ensures |Plan(4096, 4096, 2048, 2048)| == 4
    ensures PlanMaskValue(pred, 4096, 4096, 2048, 2048, segment, i, j) == 5
  {
    FourTiles();
    NoOverlapPlan(4096, 4096, 2048);
    UniformLabels(pred, 4096, 4096, 2048, 2048, segment, 5, i, j);
  }
}
