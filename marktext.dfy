/** mark_text_blocks: the segmentation pipeline for one cleaned, cropped bubble. */
module TextMarking {
  import opened TextBlocks
  import Gaps
  import Segmenter
  import Merger

  /** Some cell of the bubble's last row is dark; segmenting such a bubble fails in the source. */
  predicate LastRowDark(bubble: array2<int>)
    reads bubble
  {
    exists i, j :: i == bubble.Length0 - 1 && 0 <= i && 0 <= j < bubble.Length1 && bubble[i, j] <= BLACK_COLOR
  }

  /** The grid mark_gaps makes of a bubble: every cell whose row or column has no dark value is GAP. */
  ghost predicate GappedFrom(s: seq<seq<int>>, bubble: array2<int>)
    reads bubble
  {
    && |s| == bubble.Length0
    && (forall i :: 0 <= i < |s| ==> |s[i]| == bubble.Length1)
    && (forall i, j :: 0 <= i < bubble.Length0 && 0 <= j < bubble.Length1 ==>
          s[i][j] == if !Gaps.RowHasDark(bubble, i) || !Gaps.ColHasDark(bubble, j) then GAP else bubble[i, j])
  }

  /**
   * mark_text_blocks: blank empty rows and columns, segment, break deformed blocks down, then merge
   * blocks into squares. The ghost results record the refinement: `grids[0]` is the gapped bubble,
   * segmented into `segs[0]`; each later round re-segments the grid dissected along the previous
   * segmentation; the squares returned are those merged from the last segmentation. The bubble
   * itself is left untouched; every block returned is a valid block with a word, inside the bubble.
   */
  method MarkTextBlocks(bubble: array2<int>)
    returns (final: seq<TextBlock>, ghost grids: seq<array2<int>>, ghost segs: seq<seq<TextBlock>>)
    requires bubble.Length0 > 0 && !LastRowDark(bubble)
    ensures |grids| == |segs| == DISSECT_NUM + 1
    ensures GappedFrom(Contents(grids[0]), bubble)
    ensures forall r :: 0 <= r < DISSECT_NUM ==> Contents(grids[r + 1]) == Segmenter.Dissect(Contents(grids[r]), segs[r])
    ensures forall r :: 0 <= r <= DISSECT_NUM ==> Segmenter.IsSegmentation(grids[r], segs[r])
    ensures var processed, h, w := segs[DISSECT_NUM], bubble.Length0, bubble.Length1;
      && Merger.ArenaOk(processed, Merger.RightLinks(processed, w), Merger.DownLinks(processed, h, w))
      && final == Merger.Squares(processed, Merger.RightLinks(processed, w), Merger.DownLinks(processed, h, w),
                              Merger.NoneMatched(|processed|), 0)
    ensures forall t :: 0 <= t < |final| ==>
      IsValidBlock(final[t]) && HasWord(final[t]) && WellFormed(final[t], bubble.Length0, bubble.Length1)
  {
    var g := Gaps.MarkGaps(bubble);
    forall i, j | i == g.Length0 - 1 && 0 <= j < g.Length1
      ensures g[i, j] == GAP
    {
      assert !Gaps.RowHasDark(bubble, bubble.Length0 - 1);
    }
    var blocks := Segmenter.ConvertImgToBlocks(g);
    var processed;
    processed, grids, segs := Segmenter.BreakDownDeformedBlocks(g, blocks);
    Segmenter.SegmentationWellFormed(g, processed);
    final := Merger.MergeBlocksToFormSquares(processed, g.Length0, g.Length1);
  }
}
