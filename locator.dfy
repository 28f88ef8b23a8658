/** Finding bubbles on a page: `search_for_bubble_near_coord` and `search_img_for_bubbles`. */
module Locator {
  import opened TextBlocks
  import opened FloodFill
  import Extractor
  import TextMarking

  /**
   * What reading one bubble yields: nothing (the crop is empty or has too few dark cells), the text
   * boxes in page coordinates, or the failure the source hits when the cropped bubble's last row is
   * dark (segmentation then seeds a block on the last row, where `get_block_parameters` fails).
   */
  datatype Outcome = NoBubble | Found(boxes: seq<Boundary>) | Crashed

  /** A text block moved from crop coordinates to page coordinates. */
  function ToPage(blk: TextBlock, dy: int, dx: int): (r: Boundary)
    ensures r.ymax - r.ymin == blk.ymax - blk.ymin && r.xmax - r.xmin == blk.xmax - blk.xmin
    ensures r.ymin == blk.ymin + dy && r.xmin == blk.xmin + dx
  {
    Boundary(blk.ymin + dy, blk.ymax + dy, blk.xmin + dx, blk.xmax + dx)
  }

  /** `inner` is a rectangle (possibly zero columns wide) lying within `outer`. */
  predicate Inside(inner: Boundary, outer: Boundary)
  {
    && outer.ymin <= inner.ymin <= inner.ymax <= outer.ymax
    && outer.xmin <= inner.xmin && inner.xmin - 1 <= inner.xmax <= outer.xmax
  }

  /**
   * What reading the bubble in rectangle `b` around the white set produced: the background that was
   * painted out, the dark box and crop of the cleaned rectangle, and the outcome that follows.
   */
  ghost predicate ReadOf(page: seq<seq<int>>, b: Boundary, white: set<Cell>, r: Outcome,
                         background: set<Cell>, box: Boundary, bubble: array2<int>)
    requires Extractor.BoxInPage(page, b)
    reads bubble
  {
    var g := Extractor.Cleaned(page, b, background);
    && (forall c :: c in background <==> Background(white, b, c))
    && BackgroundSound(white, b, background)
    && Extractor.CropOf(g, Extractor.Span(b.ymin, b.ymax), Extractor.Span(b.xmin, b.xmax), box, bubble,
                        Extractor.Lower(box.ymin), Extractor.Lower(box.xmin))
    && (r == NoBubble <==> bubble.Length0 == 0 || Extractor.GridDark(g) < BLACK_PIX_THRES)
    && (r == Crashed <==> bubble.Length0 > 0 && Extractor.GridDark(g) >= BLACK_PIX_THRES && TextMarking.LastRowDark(bubble))
    && (r.Found? ==> forall k :: 0 <= k < |r.boxes| ==> Inside(r.boxes[k], b))
  }

  /**
   * The tail shared by both searches: extract_text on the located rectangle, reject an empty crop
   * or fewer than BLACK_PIX_THRES dark cells, otherwise mark_text_blocks and move each block by the
   * crop offset plus the rectangle's origin.
   */
  method ReadBubble(page: seq<seq<int>>, b: Boundary, white: set<Cell>)
    returns (r: Outcome, ghost background: set<Cell>, ghost box: Boundary, ghost bubble: array2<int>)
    requires Extractor.BoxInPage(page, b)
    ensures ReadOf(page, b, white, r, background, box, bubble)
  {
    var crop, count, offY, offX;
    crop, count, offY, offX, background, box := Extractor.ExtractText(page, b, white);
    bubble := crop;
    if crop.Length0 > 0 && count >= BLACK_PIX_THRES {
      if TextMarking.LastRowDark(crop) {
        return Crashed, background, box, bubble;
      }
      var blocks, grids, segs := TextMarking.MarkTextBlocks(crop);
      var boxes := PlaceBlocks(blocks, crop.Length0, crop.Length1, offY + b.ymin, offX + b.xmin, b);
      r := Found(boxes);
    } else {
      r := NoBubble;
    }
  }

  /**
   * The loop of search_for_bubble_near_coord that moves each block of an h-by-w crop whose origin
   * lies at (dy, dx) of the page to page coordinates; a crop inside `b` gives boxes inside `b`.
   */
  method PlaceBlocks(blocks: seq<TextBlock>, h: int, w: int, dy: int, dx: int, b: Boundary) returns (boxes: seq<Boundary>)
    requires forall t :: 0 <= t < |blocks| ==> WellFormed(blocks[t], h, w)
    requires w > 0 ==> b.ymin <= dy && dy + h - 1 <= b.ymax && b.xmin <= dx && dx + w - 1 <= b.xmax
    ensures |boxes| == |blocks|
    ensures forall t :: 0 <= t < |boxes| ==> boxes[t] == ToPage(blocks[t], dy, dx) && Inside(boxes[t], b)
  {
    boxes := [];
    var k := 0;
    while k < |blocks|
      invariant 0 <= k <= |blocks|
      invariant |boxes| == k && forall t :: 0 <= t < k ==> boxes[t] == ToPage(blocks[t], dy, dx) && Inside(boxes[t], b)
    {
      boxes := boxes + [ToPage(blocks[k], dy, dx)];
      k := k + 1;
    }
  }

  /** Every in-bounds 4-neighbour of `c` is in `s`. */
  predicate NeighboursIn(bounds: Boundary, s: set<Cell>, c: Cell)
  {
    forall k :: 0 <= k < 4 && InBounds(Neighbours(c)[k], bounds) ==> Neighbours(c)[k] in s
  }

  /** A set that holds an in-bounds seed and is closed under in-bounds neighbours holds `c`. */
  lemma {:induction false} ClosedReaches(bounds: Boundary, s: set<Cell>, seed: Cell, c: Cell)
    requires seed in s && InBounds(seed, bounds) && InBounds(c, bounds)
    requires forall v :: v in s ==> NeighboursIn(bounds, s, v)
    ensures c in s
    decreases Manhattan(seed, c)
  {
    if c == seed {
      return;
    }
    var p: Cell, k: int;
    if c.0 > seed.0 {
      p, k := (c.0 - 1, c.1), 2;
    } else if c.0 < seed.0 {
      p, k := (c.0 + 1, c.1), 3;
    } else if c.1 > seed.1 {
      p, k := (c.0, c.1 - 1), 0;
    } else {
      p, k := (c.0, c.1 + 1), 1;
    }
    ClosedReaches(bounds, s, seed, p);
    assert Neighbours(p)[k] == c;
  }

  /** Every cell of the white set is white and has all its white neighbours in the set. */
  ghost predicate WhiteSound(page: seq<seq<int>>, bounds: Boundary, white: set<Cell>)
  {
    forall c :: c in white ==> IsWhite(page, bounds, c) && WhiteClosed(page, bounds, white, c)
  }

  /**
   * The tracked rectangle is the bounding box of the seed and the white cells (it holds them, and
   * every rectangle holding them covers it), and stays within `bounds`.
   */
  ghost predicate Covers(boundary: Boundary, white: set<Cell>, seed: Cell, bounds: Boundary)
  {
    && InBounds(seed, boundary) && Widens(boundary, bounds) && (forall c :: c in white ==> InBounds(c, boundary))
    && (forall r :: InBounds(seed, r) && (forall c :: c in white ==> InBounds(c, r)) ==> Widens(boundary, r))
  }

  /** A fill from a white cell `c` keeps the white set sound and the rectangle covering it. */
  lemma FillKeeps(page: seq<seq<int>>, bounds: Boundary, seed: Cell, white: set<Cell>, boundary: Boundary,
                  c: Cell, white': set<Cell>, boundary': Boundary)
    requires WhiteSound(page, bounds, white) && Covers(boundary, white, seed, bounds)
    requires IsWhite(page, bounds, c) && white <= white' && c in white'
    requires forall v :: v in white' && v !in white && v != c ==> IsWhite(page, bounds, v)
    requires Widens(boundary, boundary') && Widens(boundary', bounds)
    requires forall v :: Added(white, white', c, v) ==> InBounds(v, boundary') && WhiteClosed(page, bounds, white', v)
    requires forall r :: Widens(boundary, r) && (forall v :: Added(white, white', c, v) ==> InBounds(v, r)) ==> Widens(boundary', r)
    ensures WhiteSound(page, bounds, white') && Covers(boundary', white', seed, bounds)
  {
    forall r | InBounds(seed, r) && (forall v :: v in white' ==> InBounds(v, r)) ensures Widens(boundary', r) {
      assert Widens(boundary, r);
    }
    forall v | v in white' ensures IsWhite(page, bounds, v) && WhiteClosed(page, bounds, white', v) && InBounds(v, boundary') {
      if !Added(white, white', c, v) {
        assert WhiteClosed(page, bounds, white, v);
      }
    }
  }

  /** Cells taken by the queue so far: each in bounds, in the visited set, queued once. */
  ghost predicate QueueExtends(bounds: Boundary, visited: set<Cell>, q: seq<Cell>, visited': set<Cell>, q': seq<Cell>)
  {
    && visited <= visited' && (forall n :: n in visited' && n !in visited ==> InBounds(n, bounds) && n in q')
    && |q| <= |q'| && q'[..|q|] == q
    && (forall k :: |q| <= k < |q'| ==> q'[k] in visited')
    && (visited' == visited ==> q' == q)
    && (visited' != visited ==> |Cells(bounds) - visited'| < |Cells(bounds) - visited|)
  }

  lemma QueueExtendsPush(bounds: Boundary, visited: set<Cell>, q: seq<Cell>, visited': set<Cell>, q': seq<Cell>, n: Cell)
    requires QueueExtends(bounds, visited, q, visited', q') && InBounds(n, bounds) && n !in visited'
    ensures QueueExtends(bounds, visited, q, visited' + {n}, q' + [n])
  {
    RemainingShrinks(Cells(bounds), visited', n);
    assert (q' + [n])[..|q|] == q'[..|q|];
  }

  /** The `for i, j in directions` loop of the search: queue each in-bounds neighbour not yet visited. */
  method EnqueueNeighbours(bounds: Boundary, c: Cell, visited: set<Cell>, q: seq<Cell>)
    returns (visited': set<Cell>, q': seq<Cell>)
    ensures QueueExtends(bounds, visited, q, visited', q')
    ensures NeighboursIn(bounds, visited', c)
  {
    visited', q' := visited, q;
    var d := 0;
    while d < 4
      invariant 0 <= d <= 4
      invariant QueueExtends(bounds, visited, q, visited', q')
      invariant forall k :: 0 <= k < d && InBounds(Neighbours(c)[k], bounds) ==> Neighbours(c)[k] in visited'
    {
      var n := Neighbours(c)[d];
      if InBounds(n, bounds) && n !in visited' {
        QueueExtendsPush(bounds, visited, q, visited', q', n);
        q' := q' + [n];
        visited' := visited' + {n};
      }
      d := d + 1;
    }
  }

  /**
   * The breadth-first search's invariant: the visited set holds the seed and lies in bounds, the
   * queue is visited, and each visited cell already dequeued has its neighbours visited and, when
   * white, lies in the white set.
   */
  ghost predicate VisitInv(page: seq<seq<int>>, bounds: Boundary, seed: Cell, visited: set<Cell>, q: seq<Cell>, white: set<Cell>)
  {
    && seed in visited && InBounds(seed, bounds)
    && (forall v :: v in visited ==> InBounds(v, bounds))
    && (forall k :: 0 <= k < |q| ==> q[k] in visited)
    && (forall v :: v in visited && v !in q ==>
          NeighboursIn(bounds, visited, v) && (IsWhite(page, bounds, v) ==> v in white))
  }

  /** One dequeue of the search keeps its invariant. */
  lemma VisitStep(page: seq<seq<int>>, bounds: Boundary, seed: Cell, visited: set<Cell>, qq: seq<Cell>, white: set<Cell>,
                  visited': set<Cell>, q': seq<Cell>, white': set<Cell>)
    requires VisitInv(page, bounds, seed, visited, qq, white) && qq != []
    requires white <= white' && (IsWhite(page, bounds, qq[0]) ==> qq[0] in white')
    requires QueueExtends(bounds, visited, qq[1..], visited', q') && NeighboursIn(bounds, visited', qq[0])
    ensures VisitInv(page, bounds, seed, visited', q', white')
  {
    var c, q := qq[0], qq[1..];
    forall k | 0 <= k < |q'| ensures q'[k] in visited' {
      if k < |q| {
        assert q'[k] == q[k] == qq[k + 1];
      }
    }
    forall v | v in visited' && v !in q'
      ensures NeighboursIn(bounds, visited', v) && (IsWhite(page, bounds, v) ==> v in white')
    {
      assert v in visited;
      if v != c {
        assert v !in q by { assert q'[..|q|] == q; }
        assert qq == [c] + q;
        assert NeighboursIn(bounds, visited, v);
      }
    }
  }

  /**
   * search_for_bubble_near_coord: a breadth-first search over the page from (y, x) that flood-fills
   * each white cell it dequeues and stops once the white set exceeds MIN_WHITE_PIX cells; the
   * rectangle the fills widened is then read as a bubble.
   */
  method SearchForBubbleNearCoord(page: seq<seq<int>>, bounds: Boundary, y: int, x: int)
    returns (r: Outcome, ghost white: set<Cell>, ghost boundary: Boundary,
             ghost background: set<Cell>, ghost box: Boundary, ghost bubble: array2<int>)
    requires BoundsInPage(page, bounds) && InBounds((y, x), bounds)
    ensures WhiteSound(page, bounds, white) && Covers(boundary, white, (y, x), bounds)
    ensures |white| > MIN_WHITE_PIX || forall c :: IsWhite(page, bounds, c) ==> c in white
    ensures IsWhite(page, bounds, (y, x)) ==> WhiteRegion(page, bounds, (y, x)) <= white
    ensures IsWhite(page, bounds, (y, x)) && |WhiteRegion(page, bounds, (y, x))| > MIN_WHITE_PIX ==>
              white == WhiteRegion(page, bounds, (y, x))
    ensures Extractor.BoxInPage(page, boundary) && ReadOf(page, boundary, white, r, background, box, bubble)
  {
    var whiteSet, b := GatherWhite(page, bounds, y, x);
    white, boundary := whiteSet, b;
    r, background, box, bubble := ReadBubble(page, b, whiteSet);
  }

  /**
   * The search loop of search_for_bubble_near_coord: the white set it gathers and the rectangle
   * its fills widened; short of MIN_WHITE_PIX cells, the search has reached every white cell.
   */
  method GatherWhite(page: seq<seq<int>>, bounds: Boundary, y: int, x: int) returns (whiteSet: set<Cell>, b: Boundary)
    requires BoundsInPage(page, bounds) && InBounds((y, x), bounds)
    ensures WhiteSound(page, bounds, whiteSet) && Covers(b, whiteSet, (y, x), bounds)
    ensures |whiteSet| > MIN_WHITE_PIX || forall c :: IsWhite(page, bounds, c) ==> c in whiteSet
    ensures IsWhite(page, bounds, (y, x)) ==> WhiteRegion(page, bounds, (y, x)) <= whiteSet
    ensures IsWhite(page, bounds, (y, x)) && |WhiteRegion(page, bounds, (y, x))| > MIN_WHITE_PIX ==>
              whiteSet == WhiteRegion(page, bounds, (y, x))
  {
    var seed := (y, x);
    var q := [seed];
    var visited := {seed};
    whiteSet, b := {}, Boundary(y, y, x, x);
    ghost var started := false;
    ghost var region := WhiteRegion(page, bounds, seed);
    while q != []
      invariant VisitInv(page, bounds, seed, visited, q, whiteSet)
      invariant WhiteSound(page, bounds, whiteSet) && Covers(b, whiteSet, seed, bounds)
      invariant |whiteSet| <= MIN_WHITE_PIX
      invariant !started ==> q == [seed] && whiteSet == {}
      invariant started && IsWhite(page, bounds, seed) ==> region <= whiteSet
      decreases |Cells(bounds) - visited|, |q|
    {
      var visited', q', w', b', stop := VisitOne(page, bounds, seed, visited, q, whiteSet, b);
      if started && IsWhite(page, bounds, seed) {
        SubsetCard(region, whiteSet);
      }
      whiteSet, b := w', b';
      if stop {
        return;
      }
      visited, q := visited', q';
      started := true;
    }
    forall c | IsWhite(page, bounds, c) ensures c in whiteSet {
      ClosedReaches(bounds, visited, seed, c);
    }
    if IsWhite(page, bounds, seed) {
      forall c | c in region ensures c in whiteSet {
        WhiteReachBack(page, bounds, seed, c);
      }
      SubsetCard(region, whiteSet);
    }
  }

  /** A subset is no larger than its superset. */
  lemma SubsetCard<T>(a: set<T>, b: set<T>)
    requires a <= b
    ensures |a| <= |b|
  {
    assert b == a + (b - a);
    assert a * (b - a) == {};
  }

  /**
   * A fill started from an empty set at a white cell, sound and made only of cells reached from
   * the cell, is exactly the cell's white region.
   */
  lemma FreshFillIsRegion(page: seq<seq<int>>, bounds: Boundary, c: Cell, fill: set<Cell>)
    requires IsWhite(page, bounds, c) && c in fill && WhiteSound(page, bounds, fill)
    requires forall v :: Added({}, fill, c, v) ==> WhiteReach(page, bounds, c, v)
    ensures fill == WhiteRegion(page, bounds, c)
  {
    RegionWithin(page, bounds, c, fill);
    forall v | v in fill ensures v in WhiteRegion(page, bounds, c) {
      assert Added({}, fill, c, v);
    }
  }

  /**
   * One pass of the search loop: dequeue a cell, flood-fill it when it is white, stop once the
   * white set exceeds MIN_WHITE_PIX cells, and otherwise queue its unvisited neighbours.
   */
  method VisitOne(page: seq<seq<int>>, bounds: Boundary, seed: Cell, visited: set<Cell>, q: seq<Cell>,
                  whiteSet: set<Cell>, b: Boundary)
    returns (visited': set<Cell>, q': seq<Cell>, whiteSet': set<Cell>, b': Boundary, stop: bool)
    requires BoundsInPage(page, bounds) && q != []
    requires VisitInv(page, bounds, seed, visited, q, whiteSet)
    requires WhiteSound(page, bounds, whiteSet) && Covers(b, whiteSet, seed, bounds) && |whiteSet| <= MIN_WHITE_PIX
    ensures WhiteSound(page, bounds, whiteSet') && Covers(b', whiteSet', seed, bounds)
    ensures stop <==> |whiteSet'| > MIN_WHITE_PIX
    ensures !stop ==> VisitInv(page, bounds, seed, visited', q', whiteSet')
    ensures !stop ==> (visited' == visited && |q'| < |q|) || |Cells(bounds) - visited'| < |Cells(bounds) - visited|
    ensures whiteSet <= whiteSet'
    ensures IsWhite(page, bounds, q[0]) ==> WhiteRegion(page, bounds, q[0]) <= whiteSet'
    ensures IsWhite(page, bounds, q[0]) && whiteSet == {} ==> whiteSet' == WhiteRegion(page, bounds, q[0])
  {
    var c := q[0];
    whiteSet', b' := whiteSet, b;
    if page[c.0][c.1] >= WHITE_COLOR {
      whiteSet', b' := FloodFillWhite(page, bounds, whiteSet, c.0, c.1, b);
      FillKeeps(page, bounds, seed, whiteSet, b, c, whiteSet', b');
      RegionWithin(page, bounds, c, whiteSet');
      if whiteSet == {} {
        FreshFillIsRegion(page, bounds, c, whiteSet');
      }
    }
    stop := |whiteSet'| > MIN_WHITE_PIX;
    visited', q' := visited, q;
    if !stop {
      visited', q' := EnqueueNeighbours(bounds, c, visited, q[1..]);
      VisitStep(page, bounds, seed, visited, q, whiteSet, visited', q', whiteSet');
    }
  }

  /** The white cells of the page met before (i, j) in raster order are all in `visited`. */
  ghost predicate RasterCovered(page: seq<seq<int>>, bounds: Boundary, visited: set<Cell>, i: int, j: int)
  {
    forall c :: IsWhite(page, bounds, c) && RasterBefore(c, (i, j)) ==> c in visited
  }

  /** One flood fill started by the page scan: the cell it started from, the cells it filled, the rectangle it spans. */
  datatype Start = Start(seed: Cell, fill: set<Cell>, rect: Boundary)

  /**
   * What the page scan did with a fill: a fill of at most MIN_WHITE_PIX cells is skipped; a larger
   * one is read as a bubble, with the outcome, background, dark box and crop of ReadOf.
   */
  datatype Reading = Skipped | Read(r: Outcome, background: set<Cell>, box: Boundary, bubble: array2<int>)

  /** Every cell filled by the starts. */
  ghost function Filled(starts: seq<Start>): set<Cell>
    decreases |starts|
  {
    if starts == [] then {} else Filled(starts[..|starts| - 1]) + starts[|starts| - 1].fill
  }

  /** The text boxes of the bubbles read with text, in scan order. */
  function FoundBoxes(readings: seq<Reading>): seq<seq<Boundary>>
    decreases |readings|
  {
    if readings == [] then []
    else
      var x := readings[|readings| - 1];
      FoundBoxes(readings[..|readings| - 1]) + if x.Read? && x.r.Found? then [x.r.boxes] else []
  }

  predicate IsCrash(x: Reading) { x.Read? && x.r.Crashed? }

  /** No bubble read so far failed. */
  predicate NoCrash(readings: seq<Reading>)
  {
    forall k :: 0 <= k < |readings| ==> !IsCrash(readings[k])
  }

  /**
   * A start made after `before`: its seed is the first white cell, in raster order after the
   * previous seed, that no earlier fill reached; its fill is the seed's white region, and its
   * rectangle is the least one holding the seed and the fill.
   */
  ghost predicate StartOk(page: seq<seq<int>>, bounds: Boundary, before: seq<Start>, s: Start)
  {
    && IsWhite(page, bounds, s.seed) && s.seed !in Filled(before)
    && RasterCovered(page, bounds, Filled(before), s.seed.0, s.seed.1)
    && (before != [] ==> RasterBefore(before[|before| - 1].seed, s.seed))
    && s.seed in s.fill && WhiteSound(page, bounds, s.fill) && Covers(s.rect, s.fill, s.seed, bounds)
    && s.fill == WhiteRegion(page, bounds, s.seed)
  }

  /** Start `k` of the scan is a good start after the starts before it. */
  ghost predicate StartOkAt(page: seq<seq<int>>, bounds: Boundary, starts: seq<Start>, k: int)
    requires 0 <= k < |starts|
  {
    StartOk(page, bounds, starts[..k], starts[k])
  }

  /** The reading of a start: skipped exactly when the fill is small, otherwise the read of its rectangle. */
  ghost predicate ReadingOk(page: seq<seq<int>>, s: Start, x: Reading)
    reads if x.Read? then {x.bubble} else {}
  {
    && (x.Skipped? <==> |s.fill| <= MIN_WHITE_PIX)
    && (x.Read? ==> Extractor.BoxInPage(page, s.rect) && ReadOf(page, s.rect, s.fill, x.r, x.background, x.box, x.bubble))
  }

  /** Reading `k` of the scan is the reading of start `k`. */
  ghost predicate ReadingOkAt(page: seq<seq<int>>, starts: seq<Start>, readings: seq<Reading>, k: int)
    requires 0 <= k < |starts| && k < |readings|
    reads if readings[k].Read? then {readings[k].bubble} else {}
  {
    ReadingOk(page, starts[k], readings[k])
  }

  /** What the page scan has done so far: its starts in order, each with its reading, and the boxes found. */
  ghost predicate ScanSoFar(page: seq<seq<int>>, bounds: Boundary, visited: set<Cell>,
                            starts: seq<Start>, readings: seq<Reading>, bubbles: seq<seq<Boundary>>)
    reads set k | 0 <= k < |readings| && readings[k].Read? :: readings[k].bubble
  {
    && visited == Filled(starts) && WhiteSound(page, bounds, visited)
    && |readings| == |starts|
    && (forall k :: 0 <= k < |starts| ==> StartOkAt(page, bounds, starts, k))
    && (forall k :: 0 <= k < |starts| ==> ReadingOkAt(page, starts, readings, k))
    && bubbles == FoundBoxes(readings)
  }

  /** A start recorded after `starts` keeps every earlier start good. */
  lemma StartsAppend(page: seq<seq<int>>, bounds: Boundary, starts: seq<Start>, s: Start)
    requires forall k :: 0 <= k < |starts| ==> StartOkAt(page, bounds, starts, k)
    requires StartOk(page, bounds, starts, s)
    ensures forall k :: 0 <= k < |starts| + 1 ==> StartOkAt(page, bounds, starts + [s], k)
  {
    var starts' := starts + [s];
    forall k | 0 <= k < |starts'| ensures StartOkAt(page, bounds, starts', k) {
      if k < |starts| {
        assert starts'[..k] == starts[..k] && starts'[k] == starts[k];
        assert StartOkAt(page, bounds, starts, k);
      } else {
        assert starts'[..k] == starts;
      }
    }
  }

  /** A reading recorded with its start keeps every earlier reading good. */
  lemma ReadingsAppend(page: seq<seq<int>>, starts: seq<Start>, readings: seq<Reading>, s: Start, x: Reading)
    requires |readings| == |starts|
    requires forall k :: 0 <= k < |starts| ==> ReadingOkAt(page, starts, readings, k)
    requires ReadingOk(page, s, x)
    ensures forall k :: 0 <= k < |starts| + 1 ==> ReadingOkAt(page, starts + [s], readings + [x], k)
  {
    var starts', readings' := starts + [s], readings + [x];
    forall k | 0 <= k < |starts'| ensures ReadingOkAt(page, starts', readings', k) {
      if k < |starts| {
        assert starts'[k] == starts[k] && readings'[k] == readings[k];
        assert ReadingOkAt(page, starts, readings, k);
      }
    }
  }

  /** The union of two sound white sets is sound. */
  lemma SoundUnion(page: seq<seq<int>>, bounds: Boundary, a: set<Cell>, b: set<Cell>)
    requires WhiteSound(page, bounds, a) && WhiteSound(page, bounds, b)
    ensures WhiteSound(page, bounds, a + b)
  {
    forall c | c in a + b ensures WhiteClosed(page, bounds, a + b, c) {
      if c in a {
        assert WhiteClosed(page, bounds, a, c);
      } else {
        assert WhiteClosed(page, bounds, b, c);
      }
    }
  }

  lemma FilledAppend(starts: seq<Start>, s: Start)
    ensures Filled(starts + [s]) == Filled(starts) + s.fill
  {
    assert (starts + [s])[..|starts|] == starts;
  }

  lemma FoundAppend(readings: seq<Reading>, x: Reading)
    ensures FoundBoxes(readings + [x]) == FoundBoxes(readings) + if x.Read? && x.r.Found? then [x.r.boxes] else []
  {
    assert (readings + [x])[..|readings|] == readings;
  }

  /** Every fill of the starts is part of what they filled. */
  lemma {:induction false} FilledHolds(starts: seq<Start>, j: int)
    requires 0 <= j < |starts|
    ensures starts[j].fill <= Filled(starts)
    decreases |starts|
  {
    if j < |starts| - 1 {
      var init := starts[..|starts| - 1];
      FilledHolds(init, j);
      assert init[j] == starts[j];
    }
  }

  /**
   * The fills of the page scan are pairwise disjoint: each is its seed's white region, and each
   * seed lies outside the earlier fills, so no earlier region can reach it.
   */
  lemma FillsDisjoint(page: seq<seq<int>>, bounds: Boundary, starts: seq<Start>)
    requires forall k :: 0 <= k < |starts| ==> StartOkAt(page, bounds, starts, k)
    ensures forall j, k :: 0 <= j < k < |starts| ==> starts[j].fill !! starts[k].fill
  {
    forall j, k | 0 <= j < k < |starts| ensures starts[j].fill !! starts[k].fill {
      if c :| c in starts[j].fill && c in starts[k].fill {
        assert StartOkAt(page, bounds, starts, j) && StartOkAt(page, bounds, starts, k);
        var sk := starts[k].seed;
        assert c in WhiteRegion(page, bounds, sk);
        WhiteReachBack(page, bounds, sk, c);
        RegionWithin(page, bounds, c, starts[j].fill);
        assert sk in WhiteRegion(page, bounds, c);
        FilledHolds(starts[..k], j);
        assert false;
      }
    }
  }

  /** The scan's record, from its parts. */
  lemma ScanSoFarIntro(page: seq<seq<int>>, bounds: Boundary, visited: set<Cell>, starts: seq<Start>,
                       readings: seq<Reading>, bubbles: seq<seq<Boundary>>)
    requires visited == Filled(starts) && WhiteSound(page, bounds, visited) && |readings| == |starts|
    requires forall k :: 0 <= k < |starts| ==> StartOkAt(page, bounds, starts, k)
    requires forall k :: 0 <= k < |starts| ==> ReadingOkAt(page, starts, readings, k)
    requires bubbles == FoundBoxes(readings)
    ensures ScanSoFar(page, bounds, visited, starts, readings, bubbles)
  {
  }

  /** Recording one more start and its reading keeps the scan's record. */
  lemma ScanAppends(page: seq<seq<int>>, bounds: Boundary, visited: set<Cell>, starts: seq<Start>,
                    readings: seq<Reading>, bubbles: seq<seq<Boundary>>, s: Start, x: Reading, bubbles': seq<seq<Boundary>>)
    requires ScanSoFar(page, bounds, visited, starts, readings, bubbles)
    requires StartOk(page, bounds, starts, s) && ReadingOk(page, s, x)
    requires bubbles' == bubbles + if x.Read? && x.r.Found? then [x.r.boxes] else []
    ensures ScanSoFar(page, bounds, visited + s.fill, starts + [s], readings + [x], bubbles')
  {
    StartsAppend(page, bounds, starts, s);
    ReadingsAppend(page, starts, readings, s, x);
    SoundUnion(page, bounds, visited, s.fill);
    FilledAppend(starts, s);
    FoundAppend(readings, x);
    ScanSoFarIntro(page, bounds, visited + s.fill, starts + [s], readings + [x], bubbles');
  }

  /**
   * The fill the page scan starts at (i, j) and what it does with it: a fill of more than
   * MIN_WHITE_PIX cells is read as a bubble over the rectangle the fill spans.
   */
  method StartAt(page: seq<seq<int>>, bounds: Boundary, i: int, j: int, ghost before: seq<Start>)
    returns (fill: set<Cell>, boxes: Option<seq<Boundary>>, crashed: bool, ghost s: Start, ghost x: Reading)
    requires BoundsInPage(page, bounds) && InBounds((i, j), bounds) && page[i][j] >= WHITE_COLOR
    requires (i, j) !in Filled(before) && RasterCovered(page, bounds, Filled(before), i, j)
    requires before != [] ==> RasterBefore(before[|before| - 1].seed, (i, j))
    ensures StartOk(page, bounds, before, s) && ReadingOk(page, s, x)
    ensures s.seed == (i, j) && s.fill == fill
    ensures crashed <==> IsCrash(x)
    ensures boxes.Some? <==> x.Read? && x.r.Found?
    ensures boxes.Some? ==> boxes.value == x.r.boxes
  {
    var seed, b0 := (i, j), Boundary(i, i, j, j);
    var b;
    fill, b := FloodFillWhite(page, bounds, {}, i, j, b0);
    s := Start(seed, fill, b);
    FreshStart(page, bounds, before, s);
    x, boxes, crashed := Skipped, None, false;
    if |fill| > MIN_WHITE_PIX {
      var r, background, box, bubble := ReadBubble(page, b, fill);
      x := Read(r, background, box, bubble);
      crashed := r.Crashed?;
      if r.Found? {
        boxes := Some(r.boxes);
      }
    }
  }

  /** A fill from an empty set at a white seed no earlier fill holds, with its box, is a good start. */
  lemma FreshStart(page: seq<seq<int>>, bounds: Boundary, before: seq<Start>, s: Start)
    requires BoundsInPage(page, bounds) && IsWhite(page, bounds, s.seed)
    requires s.seed !in Filled(before) && RasterCovered(page, bounds, Filled(before), s.seed.0, s.seed.1)
    requires before != [] ==> RasterBefore(before[|before| - 1].seed, s.seed)
    requires s.seed in s.fill
    requires forall c :: c in s.fill && c != s.seed ==> IsWhite(page, bounds, c)
    requires Widens(Boundary(s.seed.0, s.seed.0, s.seed.1, s.seed.1), s.rect) && Widens(s.rect, bounds)
    requires forall c :: Added({}, s.fill, s.seed, c) ==> InBounds(c, s.rect) && WhiteClosed(page, bounds, s.fill, c)
    requires forall r :: Widens(Boundary(s.seed.0, s.seed.0, s.seed.1, s.seed.1), r) && (forall c :: Added({}, s.fill, s.seed, c) ==> InBounds(c, r)) ==> Widens(s.rect, r)
    requires forall c :: Added({}, s.fill, s.seed, c) ==> WhiteReach(page, bounds, s.seed, c)
    ensures StartOk(page, bounds, before, s)
  {
    FillKeeps(page, bounds, s.seed, {}, Boundary(s.seed.0, s.seed.0, s.seed.1, s.seed.1), s.seed, s.fill, s.rect);
    FreshFillIsRegion(page, bounds, s.seed, s.fill);
  }

  /** The page scan at a white, unvisited cell (i, j): start a fill there and record it with its reading. */
  method ScanStart(page: seq<seq<int>>, bounds: Boundary, i: int, j: int, seen: set<Cell>,
                   bubbles: seq<seq<Boundary>>, ghost starts: seq<Start>, ghost readings: seq<Reading>)
    returns (seen': set<Cell>, bubbles': seq<seq<Boundary>>, ghost starts': seq<Start>, ghost readings': seq<Reading>,
             crashed: bool)
    requires BoundsInPage(page, bounds) && InBounds((i, j), bounds) && page[i][j] >= WHITE_COLOR && (i, j) !in seen
    requires ScanSoFar(page, bounds, seen, starts, readings, bubbles)
    requires RasterCovered(page, bounds, seen, i, j)
    requires starts != [] ==> RasterBefore(starts[|starts| - 1].seed, (i, j))
    ensures ScanSoFar(page, bounds, seen', starts', readings', bubbles')
    ensures seen <= seen' && (i, j) in seen'
    ensures |starts'| == |starts| + 1 && starts'[..|starts|] == starts && starts'[|starts|].seed == (i, j)
    ensures |readings'| == |readings| + 1 && readings'[..|readings|] == readings
    ensures crashed <==> IsCrash(readings'[|readings|])
  {
    var fill, boxes;
    ghost var s, x;
    fill, boxes, crashed, s, x := StartAt(page, bounds, i, j, starts);
    bubbles' := bubbles;
    if boxes.Some? {
      bubbles' := bubbles + [boxes.value];
    }
    ScanAppends(page, bounds, seen, starts, readings, bubbles, s, x, bubbles');
    seen', starts', readings' := seen + fill, starts + [s], readings + [x];
    assert starts'[..|starts|] == starts;
    assert readings'[..|readings|] == readings;
  }

  /**
   * The body of the page scan for cell (i, j): when it is white and unvisited, fill from it, add
   * the fill to the visited set, and read a large fill; the start and its reading are recorded.
   */
  method ScanCell(page: seq<seq<int>>, bounds: Boundary, i: int, j: int, seen: set<Cell>,
                  bubbles: seq<seq<Boundary>>, ghost starts: seq<Start>, ghost readings: seq<Reading>)
    returns (seen': set<Cell>, bubbles': seq<seq<Boundary>>, ghost starts': seq<Start>, ghost readings': seq<Reading>,
             crashed: bool)
    requires BoundsInPage(page, bounds) && InBounds((i, j), bounds)
    requires ScanSoFar(page, bounds, seen, starts, readings, bubbles)
    requires RasterCovered(page, bounds, seen, i, j)
    requires starts != [] ==> RasterBefore(starts[|starts| - 1].seed, (i, j))
    requires NoCrash(readings)
    ensures ScanSoFar(page, bounds, seen', starts', readings', bubbles')
    ensures IsWhite(page, bounds, (i, j)) && (i, j) !in seen ==>
              |starts'| == |starts| + 1 && starts'[..|starts|] == starts && starts'[|starts|].seed == (i, j)
    ensures !(IsWhite(page, bounds, (i, j)) && (i, j) !in seen) ==>
              seen' == seen && bubbles' == bubbles && starts' == starts && readings' == readings && !crashed
    ensures starts' != [] ==> RasterBefore(starts'[|starts'| - 1].seed, (i, j + 1))
    ensures crashed ==> readings' != [] && IsCrash(readings'[|readings'| - 1]) && NoCrash(readings'[..|readings'| - 1])
    ensures !crashed ==> NoCrash(readings')
    ensures RasterCovered(page, bounds, seen', i, j + 1)
  {
    if page[i][j] >= WHITE_COLOR && (i, j) !in seen {
      seen', bubbles', starts', readings', crashed := ScanStart(page, bounds, i, j, seen, bubbles, starts, readings);
      assert readings'[..|readings'| - 1] == readings;
      assert forall k :: 0 <= k < |readings| ==> readings'[k] == readings[k];
    } else {
      seen', bubbles', starts', readings', crashed := seen, bubbles, starts, readings, false;
    }
  }

  /** The inner loop of the page scan, over row `i`. */
  method ScanRow(page: seq<seq<int>>, bounds: Boundary, i: int, seen: set<Cell>,
                 bubbles: seq<seq<Boundary>>, ghost starts: seq<Start>, ghost readings: seq<Reading>)
    returns (seen': set<Cell>, bubbles': seq<seq<Boundary>>, ghost starts': seq<Start>, ghost readings': seq<Reading>,
             crashed: bool)
    requires BoundsInPage(page, bounds) && bounds.ymin <= i <= bounds.ymax && bounds.xmin == 0 <= bounds.xmax + 1
    requires ScanSoFar(page, bounds, seen, starts, readings, bubbles)
    requires RasterCovered(page, bounds, seen, i, 0)
    requires starts != [] ==> RasterBefore(starts[|starts| - 1].seed, (i, 0))
    requires NoCrash(readings)
    ensures ScanSoFar(page, bounds, seen', starts', readings', bubbles')
    ensures crashed ==> readings' != [] && IsCrash(readings'[|readings'| - 1]) && NoCrash(readings'[..|readings'| - 1])
    ensures !crashed ==> NoCrash(readings') && RasterCovered(page, bounds, seen', i + 1, 0)
    ensures !crashed ==> starts' != [] ==> RasterBefore(starts'[|starts'| - 1].seed, (i + 1, 0))
  {
    seen', bubbles', starts', readings', crashed := seen, bubbles, starts, readings, false;
    var j := 0;
    while j <= bounds.xmax
      invariant 0 <= j <= bounds.xmax + 1
      invariant ScanSoFar(page, bounds, seen', starts', readings', bubbles')
      invariant RasterCovered(page, bounds, seen', i, j)
      invariant starts' != [] ==> RasterBefore(starts'[|starts'| - 1].seed, (i, j))
      invariant NoCrash(readings')
    {
      seen', bubbles', starts', readings', crashed := ScanCell(page, bounds, i, j, seen', bubbles', starts', readings');
      if crashed {
        return;
      }
      j := j + 1;
    }
  }

  /**
   * search_img_for_bubbles: scan the page in raster order; from each white cell not yet visited,
   * flood-fill, add the fill to the visited set and, when it exceeds MIN_WHITE_PIX cells, read the
   * rectangle it spans as a bubble. The ghost results record every fill started, in order, with
   * what was done with it; the text boxes returned are those of the bubbles read with text, in
   * order (the source draws them into its output image); `crashed` reports the failure that ends
   * the source's scan, on the last bubble read. Each fill is its seed's white region, and no two
   * fills share a cell.
   */
  method SearchImgForBubbles(page: seq<seq<int>>, w: int)
    returns (bubbles: seq<seq<Boundary>>, crashed: bool, ghost starts: seq<Start>, ghost readings: seq<Reading>)
    requires forall i :: 0 <= i < |page| ==> |page[i]| == w
    ensures ScanSoFar(page, Boundary(0, |page| - 1, 0, w - 1), Filled(starts), starts, readings, bubbles)
    ensures bubbles == FoundBoxes(readings)
    ensures crashed ==> readings != [] && IsCrash(readings[|readings| - 1]) && NoCrash(readings[..|readings| - 1])
    ensures !crashed ==> NoCrash(readings)
    ensures !crashed ==> forall c :: IsWhite(page, Boundary(0, |page| - 1, 0, w - 1), c) ==> c in Filled(starts)
    ensures forall j, k :: 0 <= j < k < |starts| ==> starts[j].fill !! starts[k].fill
  {
    var bounds := Boundary(0, |page| - 1, 0, w - 1);
    var seen: set<Cell> := {};
    bubbles, crashed, starts, readings := [], false, [], [];
    var i := 0;
    while i < |page|
      invariant 0 <= i <= |page|
      invariant ScanSoFar(page, bounds, seen, starts, readings, bubbles)
      invariant RasterCovered(page, bounds, seen, i, 0)
      invariant starts != [] ==> RasterBefore(starts[|starts| - 1].seed, (i, 0))
      invariant NoCrash(readings)
    {
      assert |page[i]| == w;
      seen, bubbles, starts, readings, crashed := ScanRow(page, bounds, i, seen, bubbles, starts, readings);
      if crashed {
        FillsDisjoint(page, bounds, starts);
        return;
      }
      i := i + 1;
    }
    FillsDisjoint(page, bounds, starts);
  }
}
