# Character extraction from comic pages, modelled in Dafny

The system reads a greyscale comic page and finds its speech bubbles. It then finds the text boxes inside each bubble:

1. Threshold the page. Light pixels become pure white and dark pixels pure black.
2. Find the bubbles. The page scan flood-fills each unvisited white region and keeps the regions of more than `MIN_WHITE_PIX` pixels. The search near a given point runs a breadth-first search and flood-fills the white regions it meets, stopping once more than `MIN_WHITE_PIX` white pixels are collected.
3. Clean the rectangle the fill spans. Every pixel that is neither part of the bubble's white nor enclosed by it is painted white. The result is then tightened to the box of its dark pixels, less a margin.
4. If the crop holds enough dark pixels, segment it into text blocks:
   - gap rows and gap columns are blanked;
   - connected dark runs are swept into blocks;
   - blocks whose shape is not close to square are split again;
   - neighbouring blocks are merged while the merge brings the box closer to a square.
5. The surviving blocks are moved back to page coordinates.

Three small JavaScript helpers of the same repository are modelled too:

- `processImage` inverts an RGBA buffer in place.
- The `ImageData` wrapper turns a flat RGBA buffer into rows of 4-byte pixel entries.
- `dfs` is an 8-connected depth-first search over a visited matrix.

Each source file becomes one or more Dafny modules:

| module | file | models |
|---|---|---|
| `TextBlocks` | blocks.dfy | constants, the block record, `box_ratio`, `in_bounds`, the neighbour directions |
| `Threshold` | threshold.dfy | `apply_threshold` |
| `Gaps` | gaps.dfy | `mark_gaps`, `mark_gaps_within_block` |
| `Segmenter` | segmenter.dfy | `get_block_parameters`, `convert_img_to_blocks`, `break_down_deformed_blocks` |
| `Merger` | merger.dfy | `mark_adj_blocks`, `merge_w_nearby_blocks`, `merge_blocks_to_form_squares` |
| `TextMarking` | marktext.dfy | `mark_text_blocks` |
| `FloodFill` | floodfill.dfy | `flood_fill_white`, `flood_fill_non_white`, `mark_background` |
| `Extractor` | extractor.dfy | `tighten_bubble`, `extract_text` |
| `Locator` | locator.dfy | `search_for_bubble_near_coord`, `search_img_for_bubbles` |
| `Dfs` | dfs.dfy | `dfs` in lib/dfs.js |
| `Invert` | invert.dfy | `processImage` in main.js |
| `ReadPng` | imagedata.dfy | the `ImageData` constructor in lib/readpng.js |

The Python code mutates numpy matrices and Python sets and lists in place. Where it does, the model uses `array2<int>` parameters, or `set`/`seq` values threaded in and out of methods. The page that the searches only read is a `seq<seq<int>>`. Each loop of the source is a `while` loop with invariants, proved against a specification function or predicate. Lemmas then state what the source promises about those specifications.

Some behaviour of the source is modelled exactly as written:

- When the dark box of a cleaned bubble ends within `BUBBLE_MARGIN` of the rectangle's high edge, `tighten_bubble` falls back to `0` for `ymax`/`xmax`, not to the last index (char_extraction.py:448 and 450). The `ymax` fall-back leaves a crop at most one row high; the `xmax` fall-back leaves one at most one column wide, of any height. `Extractor.CropLastRow` states both.
- If the cropped bubble's last row has a dark pixel, `get_block_parameters` indexes past the matrix and the script fails. The model does not claim this cannot happen. It reports the outcome as `Crashed`, and `search_img_for_bubbles` stops there, as the source's exception would stop it.
- `ymid` and `xmid` in `mark_adj_blocks` use floor division, as Python 2's `/` on integers does.

## Model

| member | source | states |
|---|---|---|
| `TextBlocks.Neighbours` | char_extraction.py:50 | the four direction offsets give exactly four cells, each at Manhattan distance one |
| `TextBlocks.BoxRatioRange` | char_extraction.py:278-279 | the ratio times the longer side equals the shorter side; for non-negative sides it lies in [0, 1]; it is 1 exactly when the box is square |
| `TextBlocks.BoxRatioLess` | char_extraction.py:278-279 | comparing two box ratios is the same as comparing the cross products of their sides, so merge decisions need no division |
| `Threshold.ClampCases` | char_extraction.py:527-533 | pixels at or above `WHITE_COLOR` become 255, pixels at or below `BLACK_COLOR` become 0, and the rest are unchanged |
| `Threshold.ClampIdempotent` | char_extraction.py:527-533 | thresholding an already thresholded pixel changes nothing |
| `Threshold.ApplyThreshold` | char_extraction.py:527-533 | every pixel of the matrix is replaced, in place, by its thresholded value |
| `Gaps.DarkFlags` | char_extraction.py:132-136 | a row flag is set exactly when the row has a pixel at or below `BLACK_COLOR`; likewise for column flags |
| `Gaps.MarkGaps` | char_extraction.py:126-151 | the new matrix has `GAP` in every cell whose row or column holds no dark pixel, and the original value everywhere else |
| `Gaps.BlockWordFlags` | char_extraction.py:159-163 | the flags record, row by row and column by column within the block, whether a foreground pixel lies there |
| `Gaps.RowWordFlags` | char_extraction.py:159-163 | one row of the flag loop sets that row's flag exactly when a foreground pixel lies in it within the block, raises the flag of each column whose pixel in that row is foreground, and leaves every other row flag alone |
| `Gaps.ColWordStep` | char_extraction.py:158-163 | extending a column's window by one row adds exactly that row's pixel to the question whether the column holds foreground |
| `Gaps.BlankRows` | char_extraction.py:165-169 | when the block is taller than `WORD_BREAK_MIN_LEN`, every row of it without a word becomes `GAP` within the block's columns; every other cell keeps its value |
| `Gaps.BlankColumns` | char_extraction.py:171-175 | when the block is wider than `WORD_BREAK_MIN_LEN`, every column of it without a word becomes `GAP` within the block's rows; every other cell keeps its value |
| `Gaps.MarkGapsWithinBlock` | char_extraction.py:154-175 | the matrix after the call is the block punched into the matrix before it: a cell inside the block becomes `GAP` exactly when its row has no word and the block is taller than `WORD_BREAK_MIN_LEN`, or its column has no word and the block is wider; words are judged on the matrix before the call; every other cell keeps its value |
| `Segmenter.RowEnd` | char_extraction.py:303-309 | the sweep along a row ends at or after its start, and stays inside the row |
| `Segmenter.ColEnd` | char_extraction.py:300-310 | the downward sweep ends within the matrix, at or below its start |
| `Segmenter.DarkRun` | char_extraction.py:307-308 | the dark-pixel count of a run is at most the run's length |
| `Segmenter.BlockAtShape` | char_extraction.py:298-315 | the block seeded at a cell starts there, has positive extent, lies inside the matrix and above its last row, and its lengths match its corners |
| `Segmenter.SweptInside` | char_extraction.py:298-315 | every cell a sweep claims lies inside the matrix, off its last row and column |
| `Segmenter.GetBlockParameters` | char_extraction.py:298-315 | returns the block seeded at (y, x) and adds exactly the cells that block sweeps to the processed set |
| `Segmenter.ConvertImgToBlocks` | char_extraction.py:178-192 | the blocks are seeded, in raster order, at exactly the non-gap cells that no earlier block swept; each is the block swept from its seed |
| `Segmenter.ScanAdd` | char_extraction.py:185-191 | seeding a new block at an unswept non-gap cell keeps the raster-scan invariant |
| `Segmenter.ScanDone` | char_extraction.py:178-192 | once the scan has passed every row, the block list is the segmentation of the matrix |
| `Segmenter.AppendKeepsOrdered` | char_extraction.py:185-191 | a block seeded later in raster order keeps the seeds ordered and unswept by earlier blocks |
| `Segmenter.ClaimedGrows` | char_extraction.py:185-191 | adding a block never un-claims a cell, and its own seed becomes claimed |
| `Segmenter.SegmentationWellFormed` | char_extraction.py:178-192 | every block of a segmentation lies inside the matrix with consistent corners and lengths |
| `Segmenter.BreakDownDeformedBlocks` | char_extraction.py:103-110 | records each of the `DISSECT_NUM` rounds: round 0 is the input matrix with the input segmentation; each later round holds the previous round's matrix with every block of ratio at most `DISSECT_RATIO_THRES` punched in list order, and the segmentation of that matrix; the final matrix and the result are the last round's; cells only ever change to `GAP` |
| `Segmenter.DissectPass` | char_extraction.py:105-108 | one round's inner loop leaves the matrix equal to the specified dissection of its old values by the blocks, keeps the last row a gap row, and changes cells only to `GAP` |
| `Segmenter.DissectRound` | char_extraction.py:104-108 | one round leaves the matrix equal to the dissection of its old values by the blocks, returns the segmentation of the new matrix, records a ghost copy with the same values and segmentation, keeps the last row a gap row, and changes cells only to `GAP` |
| `Segmenter.DissectOnlyGaps` | char_extraction.py:105-108 | a dissection keeps the matrix's shape and turns cells only into `GAP` |
| `Segmenter.DissectIdle` | char_extraction.py:106-107 | when no block has a ratio at most `DISSECT_RATIO_THRES`, a dissection changes nothing |
| `Segmenter.SegmentationSame` | char_extraction.py:178-192 | being the segmentation of a matrix depends only on the matrix's values, so a copy of the matrix has the same segmentation |
| `TextMarking.MarkTextBlocks` | char_extraction.py:81-100 | the blocks returned are exactly the squares `merge_blocks_to_form_squares` makes of the last segmentation, where round 0 segments the gapped bubble (a cell is `GAP` exactly when its row or column has no dark pixel) and each later round re-segments the previous matrix dissected along the previous segmentation; each block returned is valid, holds a word and lies inside the bubble |
| `Merger.Owner` | char_extraction.py:196-205 | the painted owner of a cell is a block that contains it, and it is -1 exactly when no block contains the cell |
| `Merger.FirstOwnerRight` | char_extraction.py:213-221 | the first block found to the right on the row contains a cell of that row at or after the start |
| `Merger.FirstOwnerDown` | char_extraction.py:223-231 | the first block found below in the column contains a cell of that column at or below the start |
| `Merger.RightLinks` | char_extraction.py:213-221 | one right link per block; each link names a valid, different block further right |
| `Merger.DownLinks` | char_extraction.py:223-231 | one down link per block; each link names a valid, different block further down |
| `Merger.PaintRegions` | char_extraction.py:196-205 | every cell of the region matrix holds the index of the last block painted over it, or -1 |
| `Merger.MarkAdjBlocks` | char_extraction.py:195-231 | the right and down neighbour lists are exactly those the link specifications give |
| `Merger.SearchRight` | char_extraction.py:213-221 | the loop's search along the block's middle row `ymid = (ymin + ymax) / 2` finds exactly the specified right link |
| `Merger.SearchDown` | char_extraction.py:223-231 | the loop's search along the block's middle column `xmid = (xmin + xmax) / 2` finds exactly the specified down link |
| `Merger.Fuse` | char_extraction.py:245-250 | a horizontal merge keeps the height of the growing box; a vertical merge keeps its width |
| `Merger.GrowShape` | char_extraction.py:238-271 | the walk absorbs at most `hops` blocks, each a valid index, the first being the linked one; the box keeps its origin and, on the axis it does not grow along, its extent; its dark count is the start's plus the absorbed blocks' counts |
| `Merger.GrowImproves` | char_extraction.py:238-271 | each absorption the walk accepts brings the box's ratio strictly closer to a square |
| `Merger.GrowStops` | char_extraction.py:240-254 | the walk takes nothing when no hop is left, there is no link, or the merge is rejected because it would not bring the ratio closer to a square |
| `Merger.GrowTakes` | char_extraction.py:245-252 | a link that is followed absorbs its block and continues from the merged box |
| `Merger.MergeWithNearbyBlocks` | char_extraction.py:234-275 | the merged box is the specified right-then-down growth of block k, and the matched flags gain exactly the absorbed blocks |
| `Merger.WalkingStep` | char_extraction.py:238-254 | one iteration of the walk keeps the walk's invariant, with the absorbed block appended |
| `Merger.WalkingDone` | char_extraction.py:238-271 | when the walk ends, the box built is the specified growth and the blocks taken are the ones absorbed |
| `Merger.SquaresValid` | char_extraction.py:113-123 | every merged box kept is valid and holds a word |
| `Merger.SquaresInside` | char_extraction.py:113-123 | every merged box kept lies inside the matrix |
| `Merger.GrowInside` | char_extraction.py:238-271 | growing a box inside the matrix along links keeps it inside |
| `Merger.VisitBlock` | char_extraction.py:116-122 | visiting block k appends to the output exactly what the specification keeps for k |
| `Merger.MergeBlocksToFormSquares` | char_extraction.py:113-123 | the output is exactly the specified sequence of merged squares, and each is valid, holds a word and lies inside the matrix |
| `FloodFill.Include` | char_extraction.py:503-510 | widening a boundary to take in a cell gives the smallest boundary that contains both |
| `FloodFill.FloodFillWhite` | char_extraction.py:498-518 | the white set grows to hold the seed; every newly added cell is white, lies in the widened boundary and has all its white in-bounds neighbours in the set; the widened boundary is the smallest that covers the old boundary and every cell added; every cell added, the seed included, is reached from the seed by a walk through white cells |
| `FloodFill.PushWhiteNeighbours` | char_extraction.py:512-518 | after pushing, every white in-bounds neighbour of the cell is in the set |
| `FloodFill.WhiteStep` | char_extraction.py:498-518 | processing one popped cell keeps the fill's invariant |
| `FloodFill.AttainedStep` | char_extraction.py:503-510 | widening the boundary by a cell the fill added keeps each edge at the old boundary or at an added cell |
| `FloodFill.AttainedLeast` | char_extraction.py:503-510 | a boundary whose edges are all attained is covered by every rectangle that covers the old boundary and the added cells |
| `FloodFill.WhiteReachExtend` | char_extraction.py:512-518 | a white neighbour of a cell reached from the seed is itself reached |
| `FloodFill.WhiteWalkInside` | char_extraction.py:512-518 | a walk through white cells that starts in a set closed under white neighbours stays in it |
| `FloodFill.RegionWithin` | char_extraction.py:512-518 | a set holding the seed and closed under white neighbours holds the seed's whole white region |
| `FloodFill.WhiteReachBack` | char_extraction.py:512-518 | reaching through white cells is symmetric between white cells, and what a white cell reaches is white |
| `FloodFill.ReachedStep` | char_extraction.py:512-518 | pushing the white neighbours of a taken cell keeps every taken cell reached from the seed |
| `FloodFill.FloodFillNonWhite` | char_extraction.py:486-495 | the border grows only by cells that are neither in the white set nor already in the border, each reached from the start by a path of such cells, and every cell it reached has all its open neighbours in the border |
| `FloodFill.PushOpenNeighbours` | char_extraction.py:490-495 | after pushing, every open neighbour of the cell is in the border |
| `FloodFill.ReachStart` | char_extraction.py:490-495 | an open neighbour of the start is reached from it |
| `FloodFill.ReachExtend` | char_extraction.py:490-495 | an open neighbour of a reached cell is reached |
| `FloodFill.BorderStep` | char_extraction.py:486-495 | processing one popped cell keeps the border fill's invariant |
| `FloodFill.BorderReach` | char_extraction.py:486-495 | every cell one pop adds to the border is reached from the start |
| `FloodFill.SeedBackground` | char_extraction.py:471-481 | seeding the fill at one edge cell keeps the background sound, closes that cell if it is open, and adds only cells reached from it, so every cell of the border stays background |
| `FloodFill.MarkBackground` | char_extraction.py:467-483 | a cell is in the background exactly when a path of cells inside the rectangle and outside the white set leads to it from an outline cell outside the white set; the background is sound and every open edge cell is closed in it |
| `FloodFill.EdgesGrow` | char_extraction.py:471-481 | handling one more pair of edge cells extends the closed part of the outline |
| `FloodFill.WalkInside` | char_extraction.py:486-495 | a path of open cells that starts in a closed border stays in it |
| `FloodFill.BackgroundCovered` | char_extraction.py:467-483 | a sound border closed at every open edge cell holds every cell reached from the outline |
| `Extractor.RowDarkZero` | char_extraction.py:438-445 | a row without dark pixels counts zero |
| `Extractor.GridDarkZero` | char_extraction.py:438-445 | a matrix without dark pixels counts zero |
| `Extractor.RowCellsDarkView` | char_extraction.py:438-445 | the per-row count on the array agrees with the count on its sequence view |
| `Extractor.CellsDarkView` | char_extraction.py:438-445 | the running count on the array agrees with the count on its sequence view |
| `Extractor.DarkScan` | char_extraction.py:438-445 | the scan counts exactly the dark pixels and returns the tight box around them, or the empty-box sentinels when there are none |
| `Extractor.ScanRow` | char_extraction.py:439-445 | scanning one row updates the count and box exactly as the row tally specifies |
| `Extractor.RowTallyScan` | char_extraction.py:439-445 | the row tally keeps the count and box consistent with the cells scanned so far |
| `Extractor.RowTallyStep` | char_extraction.py:439-445 | one more cell keeps the tally's scan state |
| `Extractor.GridTallyScan` | char_extraction.py:438-445 | the whole-matrix tally counts the dark cells and boxes them |
| `Extractor.DarkScanDone` | char_extraction.py:438-445 | after every row, the tally is the dark count and the tight dark box |
| `Extractor.ScanBoxStep` | char_extraction.py:440-445 | one more scanned cell keeps the running box tight around the dark cells seen |
| `Extractor.ScanBoxRow` | char_extraction.py:438-445 | finishing a row keeps the running box tight |
| `Extractor.ScanStateTake` | char_extraction.py:440-445 | taking one cell into the tally keeps its scan state |
| `Extractor.ScanStateRow` | char_extraction.py:438-445 | a finished row's scan state carries over to the next row |
| `Extractor.ScanBoxDone` | char_extraction.py:438-445 | after every row, the running box is the dark box of the matrix |
| `Extractor.TightenBubble` | char_extraction.py:430-464 | returns the dark count of the cleaned rectangle and the crop the margins and dark box define |
| `Extractor.CropMatches` | char_extraction.py:462-464 | the cropped matrix is the submatrix between the computed indices |
| `Extractor.Crop` | char_extraction.py:462-464 | copies exactly the submatrix between the given indices |
| `Extractor.CropLastRow` | char_extraction.py:447-464 | when the box ends well above the bottom, the crop's last row has no dark pixel; otherwise the crop has at most one row; when the box ends within the margin of the right edge, the crop has at most one column |
| `Extractor.CropKeepsDark` | char_extraction.py:462-464 | when the cleaned rectangle's dark box ends more than `BUBBLE_MARGIN` before its high edges, every dark cell of the rectangle is kept in the crop at its shifted position, away from the crop's last `BUBBLE_MARGIN` rows and columns |
| `Extractor.ExtractText` | char_extraction.py:402-427 | the background is exactly the cells reached from the rectangle's outline through cells outside the white set, sound and closed along the edge; the count is the dark count of the cleaned rectangle, and the crop is its tightened box |
| `Locator.ReadBubble` | char_extraction.py:339-352 | the background is exactly what `mark_background` reaches; the crop is that of the cleaned rectangle; no bubble exactly when the crop is empty or too faint; a crash exactly when a non-empty, dark-enough crop has a dark last row; otherwise text boxes inside the rectangle |
| `Locator.PlaceBlocks` | char_extraction.py:342-352 | each output box is its block moved by the offset, and lies inside the located rectangle |
| `Locator.ClosedReaches` | char_extraction.py:320-337 | a set closed under in-bounds neighbours that holds the seed holds every cell of the bounds |
| `Locator.FillKeeps` | char_extraction.py:329-332 | a white fill started from the queue keeps the white set sound, and keeps the rectangle the bounding box of the seed and the white set |
| `Locator.EnqueueNeighbours` | char_extraction.py:333-337 | every in-bounds neighbour of the dequeued cell is visited, and only such cells are enqueued |
| `Locator.VisitStep` | char_extraction.py:320-337 | one dequeue keeps the search's invariant |
| `Locator.VisitOne` | char_extraction.py:327-337 | one dequeue keeps the white set sound and its rectangle the bounding box; it stops exactly when the white set exceeds `MIN_WHITE_PIX`, and otherwise keeps the search's invariant and makes progress (a new visited cell or a shorter queue); a white dequeued cell's white region ends up in the set, and is the whole set when the set was empty |
| `Locator.GatherWhite` | char_extraction.py:318-337 | the loop ends with a sound white set whose rectangle is the bounding box of the seed and the white set; that set exceeds `MIN_WHITE_PIX` or holds every white cell in bounds; a white seed's region lies in the set, and is exactly the set when the region alone exceeds `MIN_WHITE_PIX` cells (the search stops after the first fill) |
| `Locator.SubsetCard` | char_extraction.py:330-331 | a subset is no larger than its superset: a white set holding the seed's region is at least as large as that region |
| `Locator.FreshFillIsRegion` | char_extraction.py:366-370 | a sound fill from an empty set, holding a white cell and made of cells reached from it, is exactly that cell's white region |
| `Locator.SearchForBubbleNearCoord` | char_extraction.py:318-356 | the white set is sound and its rectangle is the bounding box of the seed and the white set; it exceeds `MIN_WHITE_PIX` or holds every white cell in bounds; a white seed's region lies in it, and is exactly it when the region exceeds `MIN_WHITE_PIX` cells; the rectangle is then read as a bubble |
| `Locator.ScanCell` | char_extraction.py:366-382 | handling one cell keeps the scan's record; a white unvisited cell starts a new fill recorded after the others, any other cell changes nothing; the cell is visited afterwards when white |
| `Locator.ScanStart` | char_extraction.py:366-382 | a start at a white unvisited cell is recorded last, with its reading; the scan reports a crash exactly when that reading crashed |
| `Locator.StartAt` | char_extraction.py:366-382 | the fill started at the cell is a good start: the seed is the first white cell in raster order that no earlier fill holds, the fill is exactly the seed's white region, its rectangle is its bounding box; a fill of more than `MIN_WHITE_PIX` cells is read, a smaller one skipped |
| `Locator.ScanAppends` | char_extraction.py:366-382 | recording one more good start with its reading keeps the scan's record, with the visited set grown by the fill |
| `Locator.FilledHolds` | char_extraction.py:371 | each fill is part of the union of the fills |
| `Locator.FillsDisjoint` | char_extraction.py:366-371 | the fills of the page scan are pairwise disjoint |
| `Locator.ScanRow` | char_extraction.py:365-382 | scanning one row keeps the scan's record and its raster coverage; it stops at the first crash |
| `Locator.StartsAppend` | char_extraction.py:366-370 | a new good start keeps the earlier starts good |
| `Locator.ReadingsAppend` | char_extraction.py:372-382 | a new reading keeps the earlier readings those of their starts |
| `Locator.SoundUnion` | char_extraction.py:370 | the union of two sound white sets is sound |
| `Locator.FilledAppend` | char_extraction.py:370 | the visited set after a start is the one before plus the new fill |
| `Locator.FoundAppend` | char_extraction.py:376-382 | the boxes found after a reading are those before, plus the reading's boxes when it found text |
| `Locator.SearchImgForBubbles` | char_extraction.py:359-383 | records every fill the scan starts, in raster order, each seeded at the first white cell no earlier fill holds and equal to that cell's white region, no two sharing a cell; each fill of more than `MIN_WHITE_PIX` cells is read as a bubble over its bounding box; the boxes returned are exactly those of the bubbles read with text, in order; only the last reading can crash, and a scan that did not crash visited every white cell |
| `Dfs.OffsetAdjacent` | lib/dfs.js:11-22 | the nine offsets tried reach exactly the cell itself and its eight neighbours |
| `Dfs.ReachStep` | lib/dfs.js:11-22 | an open neighbour of a reachable cell is reachable |
| `Dfs.ClosedHoldsPath` | lib/dfs.js:6-23 | a marked set closed under open neighbours holds every cell of a path from a marked cell |
| `Dfs.DfsStep` | lib/dfs.js:8-23 | one pop, callback and push round keeps the search's invariant |
| `Dfs.PushNeighbours` | lib/dfs.js:11-22 | the open neighbours of the popped cell end up marked and pushed |
| `Dfs.Visit` | lib/dfs.js:15-20 | a neighbour that passes the bounds, visited and check tests is marked and pushed |
| `Dfs.Pop` | lib/dfs.js:9-22 | one iteration keeps the invariant and makes progress |
| `Dfs.Drain` | lib/dfs.js:8-23 | emptying the stack calls back exactly the marked cells |
| `Dfs.DfsDone` | lib/dfs.js:1-24 | with an empty stack, the callbacks are exactly the cells reachable from the start |
| `Dfs.Dfs` | lib/dfs.js:1-24 | nothing is called when the start fails the check or was visited; otherwise every cell reachable through unvisited passing cells is called back once, and those are exactly the cells newly marked visited |
| `Invert.InvertedTwice` | main.js:4-16 | inverting the image twice gives the original buffer back |
| `Invert.InvertedPixel` | main.js:10-13 | the colour bytes of each pixel become 255 minus themselves and the alpha byte is unchanged |
| `Invert.Shl2` | main.js:8 | the shift by two is multiplication by four while it stays in 32-bit range |
| `Invert.InvertPixel` | main.js:11-13 | inverting one pixel extends the inverted prefix by four bytes |
| `Invert.ProcessImage` | main.js:4-16 | the buffer becomes the inverted image, in place: the colour bytes of the first width·height pixels are inverted and every other byte is kept, including when the buffer is too short and the typed array drops the writes past its end |
| `ReadPng.Slice` | lib/readpng.js:16 | a slice inside the buffer is exactly those bytes; outside, it is truncated |
| `ReadPng.ImageData.constructor` | lib/readpng.js:8-19 | keeps the width and height, and holds the rows of 4-byte entries cut from the buffer |
| `ReadPng.EntryBytes` | lib/readpng.js:15-16 | each entry is the pixel's four bytes at offset (y·width + x)·4 |
| `ReadPng.RunFlat` | lib/readpng.js:14-17 | concatenating a run of entries gives back the bytes it was cut from |
| `ReadPng.RowsFlatten` | lib/readpng.js:8-19 | concatenating every entry of every row gives back the first 4·width·height bytes of the buffer |

## Left out

- Image input and output are not part of this model: PIL loading, pngjs parsing (`readpng`), file streams, the `DBG` prints, the JSON and stderr output, `print_image` and `main`. The model starts from the pixel matrix, or the byte buffer, that these produce.
- `write_blocks_to_img` and `write_to_final_img` draw boxes into an output image. `SearchImgForBubbles` returns the boxes in page coordinates instead of drawing them.
- `matrix_bounds` is a global that the source rebinds. The model passes it as the `bounds` parameter.
- `box_ratio` is Python float division. The model divides exact reals, so floating-point rounding in the ratio comparisons is not modelled. `BoxRatioLess` shows that each comparison is decided by integer cross products.
- The failure in `get_block_parameters` when a bubble's last row is dark becomes the `Crashed` outcome. So `TextMarking.MarkTextBlocks` requires that the last row is not dark, and `Segmenter.ConvertImgToBlocks` requires that it is a gap row. Those are exactly the inputs on which the source does not fail.
- `Locator.SearchForBubbleNearCoord` requires the seed inside the bounds. `main` passes the command-line coordinates to it unchecked (char_extraction.py:572-574). A seed outside the page is not modelled: Python then fails on the first index, or wraps a negative one.
- `Invert.ProcessImage` requires 4·width·height ≤ 2³¹. Above that, JavaScript's `<<` wraps to a negative index. The resulting writes to properties that are not array elements are not modelled.
- `ReadPng.ImageData.constructor`: `Buffer.slice` returns views sharing memory with the buffer. The model copies the bytes, so aliasing between entries and the buffer is not captured.
- `Dfs.Dfs` requires the visited matrix to have the image's dimensions, which is how its callers build it. The callback's side effects are not modelled; the model returns the sequence of cells it is called on.
- Python sets and lists that the source mutates in place (`visited`, `processed`, `matched`, the `Queue`) are passed in and returned as values. Sharing between caller and callee is therefore not modelled.
- `FloodFill.FloodFillWhite`: every cell it adds is reached from the seed through white cells, but that walk is not said to avoid the cells already in the set, as the source's walk does. From an empty set, which is how the page scan calls it, the fill is proved to be exactly the seed's white region (`Locator.FreshFillIsRegion`).
- `Locator.GatherWhite`: when the seed is not white, or its own white region has at most `MIN_WHITE_PIX` cells, the search goes on to fill further regions. The white set is then proved to be a sound union of whole white regions, but not to be made of the regions that breadth-first order reaches first. The order is left out because it would need the queue's distances from the seed as an invariant.
- `Locator.SearchForBubbleNearCoord`: inherits the same gap as `Locator.GatherWhite` for a non-white seed or a small first region.
- `Locator.ReadBubble`: for the `Found` outcome, states that every box lies inside the rectangle. The exact translation of each block is stated by `Locator.PlaceBlocks`.
