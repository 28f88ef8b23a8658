/** The two stack-based fills of the bubble search: `flood_fill_white` and `flood_fill_non_white`, and `mark_background`. */
module FloodFill {
  import opened TextBlocks

  /** The page's own rectangle (the source's global `matrix_bounds`) lies inside the page. */
  predicate BoundsInPage(page: seq<seq<int>>, bounds: Boundary)
  {
    && 0 <= bounds.ymin && bounds.ymax < |page| && 0 <= bounds.xmin
    && forall i :: 0 <= i < |page| ==> bounds.xmax < |page[i]|
  }

  /** A cell inside `bounds` whose page value is at least WHITE_COLOR. */
  predicate IsWhite(page: seq<seq<int>>, bounds: Boundary, c: Cell)
  {
    InBounds(c, bounds) && 0 <= c.0 < |page| && 0 <= c.1 < |page[c.0]| && page[c.0][c.1] >= WHITE_COLOR
  }

  /** Every white 4-neighbour of `c` is in the set. */
  predicate WhiteClosed(page: seq<seq<int>>, bounds: Boundary, white: set<Cell>, c: Cell)
  {
    forall k :: 0 <= k < 4 && IsWhite(page, bounds, Neighbours(c)[k]) ==> Neighbours(c)[k] in white
  }

  /** `b` covers `a`. */
  predicate Widens(a: Boundary, b: Boundary)
  {
    b.ymin <= a.ymin && b.ymax >= a.ymax && b.xmin <= a.xmin && b.xmax >= a.xmax
  }

  /** The rectangle widened to take in cell `c`. */
  function Include(b: Boundary, c: Cell): (r: Boundary)
    ensures Widens(b, r) && InBounds(c, r)
    ensures forall r' :: Widens(b, r') && InBounds(c, r') ==> Widens(r, r')
  {
    Boundary(Min(b.ymin, c.0), Max(b.ymax, c.0), Min(b.xmin, c.1), Max(b.xmax, c.1))
  }

  /** Cells of `s` that entered after `s0`, together with the seed. */
  ghost predicate Added(s0: set<Cell>, s: set<Cell>, seed: Cell, c: Cell)
  {
    c in s && (c !in s0 || c == seed)
  }

  /** Each edge of `b` is the edge of `b0` or the coordinate of a cell the fill added. */
  ghost predicate Attained(b0: Boundary, b: Boundary, white0: set<Cell>, white: set<Cell>, seed: Cell)
  {
    && (b.ymin == b0.ymin || exists c :: Added(white0, white, seed, c) && c.0 == b.ymin)
    && (b.ymax == b0.ymax || exists c :: Added(white0, white, seed, c) && c.0 == b.ymax)
    && (b.xmin == b0.xmin || exists c :: Added(white0, white, seed, c) && c.1 == b.xmin)
    && (b.xmax == b0.xmax || exists c :: Added(white0, white, seed, c) && c.1 == b.xmax)
  }

  /** Widening over one more added cell keeps every edge attained. */
  lemma AttainedStep(b0: Boundary, b: Boundary, white0: set<Cell>, white: set<Cell>, white': set<Cell>, seed: Cell, c: Cell)
    requires Attained(b0, b, white0, white, seed) && Added(white0, white, seed, c) && white <= white'
    ensures Attained(b0, Include(b, c), white0, white', seed)
  {
    forall v | Added(white0, white, seed, v) ensures Added(white0, white', seed, v) {
    }
  }

  /** Attained edges make `b` the smallest rectangle widening `b0` over the added cells. */
  lemma AttainedLeast(b0: Boundary, b: Boundary, white0: set<Cell>, white: set<Cell>, seed: Cell, r: Boundary)
    requires Attained(b0, b, white0, white, seed)
    requires Widens(b0, r) && forall c :: Added(white0, white, seed, c) ==> InBounds(c, r)
    ensures Widens(b, r)
  {
  }

  /** A walk of 4-neighbour steps whose cells after the first are all white. */
  ghost predicate WhiteWalk(page: seq<seq<int>>, bounds: Boundary, p: seq<Cell>)
  {
    |p| >= 1 && forall k :: 0 < k < |p| ==> IsWhite(page, bounds, p[k]) && p[k] in Neighbours(p[k - 1])
  }

  /** `c` is `s` or is reached from `s` through white cells: what flood_fill_white seeded at `s` may take. */
  ghost predicate WhiteReach(page: seq<seq<int>>, bounds: Boundary, s: Cell, c: Cell)
  {
    exists p :: WhiteWalk(page, bounds, p) && p[0] == s && p[|p| - 1] == c
  }

  /** The white region of `s`: every cell of `bounds` that `s` reaches through white cells. */
  ghost function WhiteRegion(page: seq<seq<int>>, bounds: Boundary, s: Cell): set<Cell>
  {
    set c | c in Cells(bounds) && WhiteReach(page, bounds, s, c)
  }

  /** A white neighbour of a reached cell is reached. */
  lemma WhiteReachExtend(page: seq<seq<int>>, bounds: Boundary, s: Cell, c: Cell, n: Cell)
    requires WhiteReach(page, bounds, s, c) && n in Neighbours(c) && IsWhite(page, bounds, n)
    ensures WhiteReach(page, bounds, s, n)
  {
    var p :| WhiteWalk(page, bounds, p) && p[0] == s && p[|p| - 1] == c;
    var q := p + [n];
    forall k | 0 < k < |q| ensures IsWhite(page, bounds, q[k]) && q[k] in Neighbours(q[k - 1]) {
      if k < |p| {
        assert q[k] == p[k] && q[k - 1] == p[k - 1];
      }
    }
    assert WhiteWalk(page, bounds, q) && q[0] == s && q[|q| - 1] == n;
  }

  /**
   * A set holding a walk's first cell, whose every cell has its white neighbours in it, holds
   * every cell of the walk.
   */
  lemma {:induction false} WhiteWalkInside(page: seq<seq<int>>, bounds: Boundary, s: set<Cell>, p: seq<Cell>, k: int)
    requires WhiteWalk(page, bounds, p) && 0 <= k < |p| && p[0] in s
    requires forall c :: c in s ==> WhiteClosed(page, bounds, s, c)
    ensures p[k] in s
  {
    if k > 0 {
      WhiteWalkInside(page, bounds, s, p, k - 1);
      assert p[k] in Neighbours(p[k - 1]) && IsWhite(page, bounds, p[k]);
      var d :| 0 <= d < 4 && Neighbours(p[k - 1])[d] == p[k];
      assert WhiteClosed(page, bounds, s, p[k - 1]);
    }
  }

  /** A set holding `seed` and closed under white neighbours holds the seed's white region. */
  lemma RegionWithin(page: seq<seq<int>>, bounds: Boundary, seed: Cell, s: set<Cell>)
    requires seed in s && forall c :: c in s ==> WhiteClosed(page, bounds, s, c)
    ensures WhiteRegion(page, bounds, seed) <= s
  {
    forall c | c in WhiteRegion(page, bounds, seed) ensures c in s {
      var p :| WhiteWalk(page, bounds, p) && p[0] == seed && p[|p| - 1] == c;
      WhiteWalkInside(page, bounds, s, p, |p| - 1);
    }
  }

  /** Walking back along a white walk that starts at a white cell is again a white walk. */
  lemma WhiteReachBack(page: seq<seq<int>>, bounds: Boundary, s: Cell, c: Cell)
    requires WhiteReach(page, bounds, s, c) && IsWhite(page, bounds, s)
    ensures WhiteReach(page, bounds, c, s) && IsWhite(page, bounds, c)
  {
    var p :| WhiteWalk(page, bounds, p) && p[0] == s && p[|p| - 1] == c;
    var n := |p|;
    var q := seq(n, k requires 0 <= k < n => p[n - 1 - k]);
    forall k | 0 < k < n ensures IsWhite(page, bounds, q[k]) && q[k] in Neighbours(q[k - 1]) {
      var i := n - 1 - k;
      assert q[k] == p[i] && q[k - 1] == p[i + 1];
      assert p[i + 1] in Neighbours(p[i]);
      NeighbourSymmetric(p[i], p[i + 1]);
    }
    assert WhiteWalk(page, bounds, q) && q[0] == c && q[n - 1] == s;
    if n > 1 {
      assert IsWhite(page, bounds, p[n - 1]);
    }
  }

  /** 4-adjacency is symmetric. */
  lemma NeighbourSymmetric(a: Cell, b: Cell)
    requires b in Neighbours(a)
    ensures a in Neighbours(b)
  {
    var k :| 0 <= k < 4 && Neighbours(a)[k] == b;
    if k == 0 {
      assert Neighbours(b)[1] == a;
    } else if k == 1 {
      assert Neighbours(b)[0] == a;
    } else if k == 2 {
      assert Neighbours(b)[3] == a;
    } else {
      assert Neighbours(b)[2] == a;
    }
  }

  /** Every cell the fill has taken since it started, the seed included, is reached from the seed. */
  ghost predicate WhiteReached(page: seq<seq<int>>, bounds: Boundary, white0: set<Cell>, seed: Cell, white: set<Cell>)
  {
    forall c :: Added(white0, white, seed, c) ==> WhiteReach(page, bounds, seed, c)
  }

  /** Adding white neighbours of a taken cell keeps every taken cell reached from the seed. */
  lemma ReachedStep(page: seq<seq<int>>, bounds: Boundary, white0: set<Cell>, seed: Cell,
                    white: set<Cell>, white': set<Cell>, c: Cell)
    requires WhiteReached(page, bounds, white0, seed, white) && Added(white0, white, seed, c) && white <= white'
    requires forall v :: v in white' && v !in white ==> IsWhite(page, bounds, v) && v in Neighbours(c)
    ensures WhiteReached(page, bounds, white0, seed, white')
  {
    forall v | Added(white0, white', seed, v) ensures WhiteReach(page, bounds, seed, v) {
      if v in white {
        assert Added(white0, white, seed, v);
      } else {
        WhiteReachExtend(page, bounds, seed, c, v);
      }
    }
  }

  /** What holds of flood_fill_white's state between two pops. */
  ghost predicate WhiteInv(page: seq<seq<int>>, bounds: Boundary, white0: set<Cell>, seed: Cell, b0: Boundary,
                           white: set<Cell>, b: Boundary, stack: seq<Cell>)
  {
    && white0 <= white && seed in white
    && (forall c :: c in white && c !in white0 && c != seed ==> IsWhite(page, bounds, c))
    && (forall k :: 0 <= k < |stack| ==> Added(white0, white, seed, stack[k]))
    && Widens(b0, b)
    && (InBounds(seed, bounds) && Widens(b0, bounds) ==> Widens(b, bounds))
    && (forall c :: Added(white0, white, seed, c) && c !in stack ==> InBounds(c, b) && WhiteClosed(page, bounds, white, c))
  }

  /**
   * flood_fill_white: from the seed, collect every white cell 4-connected to it through white cells
   * of the page, widening `b` over each cell taken. The seed is always added, whatever its value.
   */
  method FloodFillWhite(page: seq<seq<int>>, bounds: Boundary, white0: set<Cell>, y: int, x: int, b0: Boundary)
    returns (white: set<Cell>, b: Boundary)
    requires BoundsInPage(page, bounds)
    ensures white0 <= white && (y, x) in white
    ensures forall c :: c in white && c !in white0 && c != (y, x) ==> IsWhite(page, bounds, c)
    ensures Widens(b0, b)
    ensures InBounds((y, x), bounds) && Widens(b0, bounds) ==> Widens(b, bounds)
    ensures forall c :: Added(white0, white, (y, x), c) ==> InBounds(c, b) && WhiteClosed(page, bounds, white, c)
    ensures forall r :: Widens(b0, r) && (forall c :: Added(white0, white, (y, x), c) ==> InBounds(c, r)) ==> Widens(b, r)
    ensures forall c :: Added(white0, white, (y, x), c) ==> WhiteReach(page, bounds, (y, x), c)
  {
    var seed := (y, x);
    var stack := [seed];
    white := white0 + {seed};
    b := b0;
    assert WhiteWalk(page, bounds, [seed]);
    while stack != []
      invariant WhiteInv(page, bounds, white0, seed, b0, white, b, stack) && NoDuplicates(stack)
      invariant WhiteReached(page, bounds, white0, seed, white)
      invariant forall k :: 0 <= k < |stack| ==> stack[k] in white
      invariant Attained(b0, b, white0, white, seed)
      decreases |Cells(bounds) - white|, |stack|
    {
      white, b, stack := PopWhite(page, bounds, white0, seed, b0, white, b, stack);
    }
    forall r | Widens(b0, r) && (forall c :: Added(white0, white, seed, c) ==> InBounds(c, r)) ensures Widens(b, r) {
      AttainedLeast(b0, b, white0, white, seed, r);
    }
  }

  /** One pass of flood_fill_white's `while stack` loop: pop a cell, widen the box over it, push its white neighbours. */
  method PopWhite(page: seq<seq<int>>, bounds: Boundary, white0: set<Cell>, seed: Cell, b0: Boundary,
                  white: set<Cell>, b: Boundary, stack: seq<Cell>)
    returns (white': set<Cell>, b': Boundary, stack': seq<Cell>)
    requires BoundsInPage(page, bounds) && stack != []
    requires WhiteInv(page, bounds, white0, seed, b0, white, b, stack) && NoDuplicates(stack)
    requires forall k :: 0 <= k < |stack| ==> stack[k] in white
    requires Attained(b0, b, white0, white, seed)
    requires WhiteReached(page, bounds, white0, seed, white)
    ensures WhiteInv(page, bounds, white0, seed, b0, white', b', stack') && NoDuplicates(stack')
    ensures WhiteReached(page, bounds, white0, seed, white')
    ensures forall k :: 0 <= k < |stack'| ==> stack'[k] in white'
    ensures Attained(b0, b', white0, white', seed)
    ensures |Cells(bounds) - white'| < |Cells(bounds) - white| || (white' == white && |stack'| < |stack|)
  {
    var c := stack[|stack| - 1];
    var rest := stack[..|stack| - 1];
    b' := Include(b, c);
    white', stack' := PushWhiteNeighbours(page, bounds, c, white, rest);
    PopKeeps(page, bounds, white0, seed, b0, white, b, stack, white', stack');
    assert Added(white0, white, seed, stack[|stack| - 1]);
    AttainedStep(b0, b, white0, white, white', seed, c);
    ReachedStep(page, bounds, white0, seed, white, white', c);
  }

  /** The state after one pass of flood_fill_white's loop keeps its invariant. */
  lemma PopKeeps(page: seq<seq<int>>, bounds: Boundary, white0: set<Cell>, seed: Cell, b0: Boundary,
                 white: set<Cell>, b: Boundary, stack: seq<Cell>, white': set<Cell>, stack': seq<Cell>)
    requires stack != []
    requires WhiteInv(page, bounds, white0, seed, b0, white, b, stack) && NoDuplicates(stack)
    requires forall k :: 0 <= k < |stack| ==> stack[k] in white
    requires Extends(page, bounds, white, stack[..|stack| - 1], white', stack')
    requires WhiteClosed(page, bounds, white', stack[|stack| - 1])
    ensures WhiteInv(page, bounds, white0, seed, b0, white', Include(b, stack[|stack| - 1]), stack')
  {
    var c := stack[|stack| - 1];
    var rest := stack[..|stack| - 1];
    assert stack == rest + [c];
    WhiteStep(page, bounds, white0, seed, b0, white, Include(b, c), rest, c, white', stack');
  }

  /**
   * `stack'`/`white'` extend `stack`/`white` by pushing, each once, cells that are white and were not
   * yet taken; with the measure that makes the fill terminate.
   */
  ghost predicate Extends(page: seq<seq<int>>, bounds: Boundary, white: set<Cell>, stack: seq<Cell>,
                          white': set<Cell>, stack': seq<Cell>)
  {
    && white <= white' && (forall n :: n in white' && n !in white ==> IsWhite(page, bounds, n))
    && |stack| <= |stack'| && stack'[..|stack|] == stack
    && (forall k :: |stack| <= k < |stack'| ==> stack'[k] in white' && stack'[k] !in white)
    && (forall n :: n in white' && n !in white ==> n in stack')
    && NoDuplicates(stack') && (forall k :: 0 <= k < |stack'| ==> stack'[k] in white')
    && (white' == white ==> stack' == stack)
    && (white' != white ==> |Cells(bounds) - white'| < |Cells(bounds) - white|)
  }

  /** Pushing one more white, untaken cell keeps the extension. */
  lemma ExtendsPush(page: seq<seq<int>>, bounds: Boundary, white: set<Cell>, stack: seq<Cell>,
                    white': set<Cell>, stack': seq<Cell>, n: Cell)
    requires Extends(page, bounds, white, stack, white', stack') && IsWhite(page, bounds, n) && n !in white'
    ensures Extends(page, bounds, white, stack, white' + {n}, stack' + [n])
  {
    RemainingShrinks(Cells(bounds), white', n);
    assert (stack' + [n])[..|stack|] == stack'[..|stack|];
  }

  /**
   * The `for i, j in directions` loop of flood_fill_white for the popped cell `c`: push and add each
   * in-bounds white neighbour not yet taken.
   */
  method PushWhiteNeighbours(page: seq<seq<int>>, bounds: Boundary, c: Cell, white: set<Cell>, stack: seq<Cell>)
    returns (white': set<Cell>, stack': seq<Cell>)
    requires BoundsInPage(page, bounds)
    requires NoDuplicates(stack) && forall k :: 0 <= k < |stack| ==> stack[k] in white
    ensures Extends(page, bounds, white, stack, white', stack')
    ensures WhiteClosed(page, bounds, white', c)
    ensures forall v :: v in white' && v !in white ==> v in Neighbours(c)
  {
    white', stack' := white, stack;
    var directions := Neighbours(c);
    var d := 0;
    while d < 4
      invariant 0 <= d <= 4
      invariant Extends(page, bounds, white, stack, white', stack')
      invariant forall v :: v in white' && v !in white ==> v in directions
      invariant forall k :: 0 <= k < d && IsWhite(page, bounds, directions[k]) ==> directions[k] in white'
    {
      ghost var before := white';
      white', stack' := PushWhite(page, bounds, directions[d], white, stack, white', stack');
      forall k | 0 <= k <= d && IsWhite(page, bounds, directions[k]) ensures directions[k] in white' {
        if k < d {
          assert directions[k] in before;
        }
      }
      d := d + 1;
    }
  }

  /** One neighbour `n` in flood_fill_white's `for i, j in directions` loop: push and add it when it is in bounds, white and new. */
  method PushWhite(page: seq<seq<int>>, bounds: Boundary, n: Cell, white: set<Cell>, stack: seq<Cell>,
                   white1: set<Cell>, stack1: seq<Cell>)
    returns (white2: set<Cell>, stack2: seq<Cell>)
    requires BoundsInPage(page, bounds)
    requires Extends(page, bounds, white, stack, white1, stack1)
    ensures Extends(page, bounds, white, stack, white2, stack2)
    ensures white1 <= white2 && (IsWhite(page, bounds, n) ==> n in white2)
    ensures forall v :: v in white2 && v !in white1 ==> v == n
  {
    white2, stack2 := white1, stack1;
    if InBounds(n, bounds) && page[n.0][n.1] >= WHITE_COLOR && n !in white1 {
      ExtendsPush(page, bounds, white, stack, white1, stack1, n);
      stack2 := stack1 + [n];
      white2 := white1 + {n};
    }
  }

  /** One pop of flood_fill_white keeps its invariant. */
  lemma WhiteStep(page: seq<seq<int>>, bounds: Boundary, white0: set<Cell>, seed: Cell, b0: Boundary,
                  white: set<Cell>, b: Boundary, stack: seq<Cell>, c: Cell, white': set<Cell>, stack': seq<Cell>)
    requires WhiteInv(page, bounds, white0, seed, b0, white, b, stack + [c]) && InBounds(c, b) && c in white
    requires NoDuplicates(stack + [c])
    requires Extends(page, bounds, white, stack, white', stack')
    requires WhiteClosed(page, bounds, white', c)
    ensures WhiteInv(page, bounds, white0, seed, b0, white', b, stack')
  {
    forall k | 0 <= k < |stack'| ensures Added(white0, white', seed, stack'[k]) {
      if k < |stack| {
        assert stack'[k] == stack[k] == (stack + [c])[k];
      }
    }
    forall e | Added(white0, white', seed, e) && e !in stack'
      ensures InBounds(e, b) && WhiteClosed(page, bounds, white', e)
    {
      if e != c {
        assert e in white;
        assert e !in stack + [c];
        assert WhiteClosed(page, bounds, white, e);
      }
    }
  }

  /** A cell flood_fill_non_white may take: inside `bounds` and not part of the white set. */
  predicate Open(white: set<Cell>, bounds: Boundary, c: Cell)
  {
    InBounds(c, bounds) && c !in white
  }

  /** Every open 4-neighbour of `c` is in the border set. */
  predicate BorderClosed(white: set<Cell>, bounds: Boundary, border: set<Cell>, c: Cell)
  {
    forall k :: 0 <= k < 4 && Open(white, bounds, Neighbours(c)[k]) ==> Neighbours(c)[k] in border
  }

  /** A walk of at least one 4-neighbour step whose cells after the first are all open. */
  ghost predicate OpenWalk(white: set<Cell>, bounds: Boundary, p: seq<Cell>)
  {
    |p| >= 2 && forall k :: 0 < k < |p| ==> Open(white, bounds, p[k]) && p[k] in Neighbours(p[k - 1])
  }

  /** `c` is reached from `s` by at least one step through open cells: what a fill seeded at `s` adds. */
  ghost predicate OpenReach(white: set<Cell>, bounds: Boundary, s: Cell, c: Cell)
  {
    exists p :: OpenWalk(white, bounds, p) && p[0] == s && p[|p| - 1] == c
  }

  /** One open neighbour of the seed is reached. */
  lemma ReachStart(white: set<Cell>, bounds: Boundary, s: Cell, n: Cell)
    requires n in Neighbours(s) && Open(white, bounds, n)
    ensures OpenReach(white, bounds, s, n)
  {
    assert OpenWalk(white, bounds, [s, n]);
  }

  /** An open neighbour of a reached cell is reached. */
  lemma ReachExtend(white: set<Cell>, bounds: Boundary, s: Cell, c: Cell, n: Cell)
    requires OpenReach(white, bounds, s, c) && n in Neighbours(c) && Open(white, bounds, n)
    ensures OpenReach(white, bounds, s, n)
  {
    var p :| OpenWalk(white, bounds, p) && p[0] == s && p[|p| - 1] == c;
    var q := p + [n];
    forall k | 0 < k < |q| ensures Open(white, bounds, q[k]) && q[k] in Neighbours(q[k - 1]) {
      if k < |p| {
        assert q[k] == p[k] && q[k - 1] == p[k - 1];
      }
    }
    assert OpenWalk(white, bounds, q) && q[0] == s && q[|q| - 1] == n;
  }

  /**
   * A set whose cells all have their open neighbours in it, and which holds the open neighbours of a
   * walk's first cell, holds every later cell of the walk.
   */
  lemma {:induction false} WalkInside(white: set<Cell>, bounds: Boundary, border: set<Cell>, p: seq<Cell>, k: int)
    requires OpenWalk(white, bounds, p) && 0 < k < |p|
    requires BorderClosed(white, bounds, border, p[0])
    requires forall c :: c in border ==> BorderClosed(white, bounds, border, c)
    ensures p[k] in border
  {
    if k > 1 {
      WalkInside(white, bounds, border, p, k - 1);
    }
    assert p[k] in Neighbours(p[k - 1]) && Open(white, bounds, p[k]);
    var d :| 0 <= d < 4 && Neighbours(p[k - 1])[d] == p[k];
  }

  /** Cells that entered the border set after `border0`, together with the seed. */
  ghost predicate Touched(border0: set<Cell>, border: set<Cell>, seed: Cell, c: Cell)
  {
    c == seed || (c in border && c !in border0)
  }

  /** What holds of flood_fill_non_white's state between two pops. */
  ghost predicate BorderInv(white: set<Cell>, bounds: Boundary, border0: set<Cell>, seed: Cell,
                            border: set<Cell>, stack: seq<Cell>)
  {
    && border0 <= border
    && (forall c :: c in border && c !in border0 ==> Open(white, bounds, c))
    && (forall k :: 0 <= k < |stack| ==> Touched(border0, border, seed, stack[k]))
    && (forall c :: Touched(border0, border, seed, c) && c !in stack ==> BorderClosed(white, bounds, border, c))
    && (forall c :: c in border && c !in border0 ==> OpenReach(white, bounds, seed, c))
  }

  /** `border'`/`stack'` extend `border`/`stack` by pushing, each once, open cells not yet in the border. */
  ghost predicate BorderExtends(white: set<Cell>, bounds: Boundary, border: set<Cell>, stack: seq<Cell>,
                                border': set<Cell>, stack': seq<Cell>)
  {
    && border <= border' && (forall n :: n in border' && n !in border ==> Open(white, bounds, n))
    && |stack| <= |stack'| && stack'[..|stack|] == stack
    && (forall k :: |stack| <= k < |stack'| ==> stack'[k] in border' && stack'[k] !in border)
    && (forall n :: n in border' && n !in border ==> n in stack')
    && (border' == border ==> stack' == stack)
    && (border' != border ==> |Cells(bounds) - border'| < |Cells(bounds) - border|)
  }

  lemma BorderExtendsPush(white: set<Cell>, bounds: Boundary, border: set<Cell>, stack: seq<Cell>,
                          border': set<Cell>, stack': seq<Cell>, n: Cell)
    requires BorderExtends(white, bounds, border, stack, border', stack') && Open(white, bounds, n) && n !in border'
    ensures BorderExtends(white, bounds, border, stack, border' + {n}, stack' + [n])
  {
    RemainingShrinks(Cells(bounds), border', n);
    assert (stack' + [n])[..|stack|] == stack'[..|stack|];
  }

  /** The `for i, j in directions` loop of flood_fill_non_white for the popped cell `c`. */
  method PushOpenNeighbours(white: set<Cell>, bounds: Boundary, c: Cell, border: set<Cell>, stack: seq<Cell>)
    returns (border': set<Cell>, stack': seq<Cell>)
    ensures BorderExtends(white, bounds, border, stack, border', stack')
    ensures BorderClosed(white, bounds, border', c)
    ensures forall n :: n in border' && n !in border ==> n in Neighbours(c)
  {
    border', stack' := border, stack;
    var d := 0;
    while d < 4
      invariant 0 <= d <= 4
      invariant BorderExtends(white, bounds, border, stack, border', stack')
      invariant forall n :: n in border' && n !in border ==> n in Neighbours(c)
      invariant forall k :: 0 <= k < d && Open(white, bounds, Neighbours(c)[k]) ==> Neighbours(c)[k] in border'
    {
      var n := Neighbours(c)[d];
      if InBounds(n, bounds) && n !in white && n !in border' {
        BorderExtendsPush(white, bounds, border, stack, border', stack', n);
        stack' := stack' + [n];
        border' := border' + {n};
      }
      d := d + 1;
    }
  }

  /** One pop of flood_fill_non_white keeps its invariant. */
  lemma BorderStep(white: set<Cell>, bounds: Boundary, border0: set<Cell>, seed: Cell,
                   border: set<Cell>, stack: seq<Cell>, c: Cell, border': set<Cell>, stack': seq<Cell>)
    requires BorderInv(white, bounds, border0, seed, border, stack + [c])
    requires BorderExtends(white, bounds, border, stack, border', stack')
    requires BorderClosed(white, bounds, border', c)
    requires forall n :: n in border' && n !in border ==> n in Neighbours(c)
    ensures BorderInv(white, bounds, border0, seed, border', stack')
  {
    BorderReach(white, bounds, border0, seed, border, stack, c, border', stack');
    forall k | 0 <= k < |stack'| ensures Touched(border0, border', seed, stack'[k]) {
      if k < |stack| {
        assert stack'[k] == stack[k] == (stack + [c])[k];
      }
    }
    forall e | Touched(border0, border', seed, e) && e !in stack'
      ensures BorderClosed(white, bounds, border', e)
    {
      if e != c {
        assert e !in stack + [c];
        assert BorderClosed(white, bounds, border, e);
      }
    }
  }

  /** The cells one pop adds are reached from the seed: the popped cell is the seed or was reached. */
  lemma BorderReach(white: set<Cell>, bounds: Boundary, border0: set<Cell>, seed: Cell,
                    border: set<Cell>, stack: seq<Cell>, c: Cell, border': set<Cell>, stack': seq<Cell>)
    requires BorderInv(white, bounds, border0, seed, border, stack + [c])
    requires BorderExtends(white, bounds, border, stack, border', stack')
    requires forall n :: n in border' && n !in border ==> n in Neighbours(c)
    ensures forall n :: n in border' && n !in border0 ==> OpenReach(white, bounds, seed, n)
  {
    assert Touched(border0, border, seed, (stack + [c])[|stack|]);
    forall n | n in border' && n !in border0 ensures OpenReach(white, bounds, seed, n) {
      if n !in border {
        if c == seed {
          ReachStart(white, bounds, seed, n);
        } else {
          ReachExtend(white, bounds, seed, c, n);
        }
      }
    }
  }

  /**
   * flood_fill_non_white: from the seed, add to `border` every cell inside `bounds` and outside the
   * white set that is 4-connected to the seed through such cells, whatever its intensity. The seed
   * itself is added only when one of its neighbours leads back to it.
   */
  method FloodFillNonWhite(white: set<Cell>, border0: set<Cell>, bounds: Boundary, y: int, x: int)
    returns (border: set<Cell>)
    ensures border0 <= border
    ensures forall c :: c in border && c !in border0 ==> Open(white, bounds, c)
    ensures forall c :: Touched(border0, border, (y, x), c) ==> BorderClosed(white, bounds, border, c)
    ensures forall c :: c in border && c !in border0 ==> OpenReach(white, bounds, (y, x), c)
  {
    var seed := (y, x);
    var stack := [seed];
    border := border0;
    while stack != []
      invariant BorderInv(white, bounds, border0, seed, border, stack)
      decreases |Cells(bounds) - border|, |stack|
    {
      var c := stack[|stack| - 1];
      stack := stack[..|stack| - 1];
      var border', stack' := PushOpenNeighbours(white, bounds, c, border, stack);
      BorderStep(white, bounds, border0, seed, border, stack, c, border', stack');
      border, stack := border', stack';
    }
  }

  /** Every cell of the set is open and has all its open neighbours in the set. */
  ghost predicate BackgroundSound(white: set<Cell>, bounds: Boundary, border: set<Cell>)
  {
    forall c :: c in border ==> Open(white, bounds, c) && BorderClosed(white, bounds, border, c)
  }

  /** The open cells of the top and bottom rows left of column `i`, and of the left and right columns above row `r`, are closed. */
  ghost predicate EdgesClosed(white: set<Cell>, bounds: Boundary, border: set<Cell>, i: int, r: int)
  {
    forall e :: InBounds(e, bounds) && Open(white, bounds, e) &&
      (((e.0 == bounds.ymin || e.0 == bounds.ymax) && e.1 < i) || ((e.1 == bounds.xmin || e.1 == bounds.xmax) && e.0 < r))
      ==> BorderClosed(white, bounds, border, e)
  }

  /** A cell on the rectangle's outline. */
  predicate OnEdge(e: Cell, b: Boundary)
  {
    InBounds(e, b) && (e.0 == b.ymin || e.0 == b.ymax || e.1 == b.xmin || e.1 == b.xmax)
  }

  /** A cell mark_background seeds a fill from: on the top or bottom row, or the left or right column. */
  predicate Outline(e: Cell, b: Boundary)
  {
    || (b.xmin <= e.1 <= b.xmax && (e.0 == b.ymin || e.0 == b.ymax))
    || (b.ymin <= e.0 <= b.ymax && (e.1 == b.xmin || e.1 == b.xmax))
  }

  /** The background of mark_background: cells reached through open cells from an outline cell outside the white set. */
  ghost predicate Background(white: set<Cell>, b: Boundary, c: Cell)
  {
    exists e :: Outline(e, b) && e !in white && OpenReach(white, b, e, c)
  }

  /** The guarded call of mark_background at one edge cell: fill from it unless it is taken or white. */
  method SeedBackground(white: set<Cell>, bounds: Boundary, border: set<Cell>, e: Cell) returns (border': set<Cell>)
    requires Outline(e, bounds)
    requires BackgroundSound(white, bounds, border)
    requires forall c :: c in border ==> Background(white, bounds, c)
    ensures BackgroundSound(white, bounds, border') && border <= border'
    ensures forall c :: c in border' && c !in border ==> e !in white && OpenReach(white, bounds, e, c)
    ensures forall c :: c in border' ==> Background(white, bounds, c)
    ensures Open(white, bounds, e) ==> BorderClosed(white, bounds, border', e)
    ensures forall c :: BorderClosed(white, bounds, border, c) ==> BorderClosed(white, bounds, border', c)
  {
    border' := border;
    if e !in border && e !in white {
      border' := FloodFillNonWhite(white, border, bounds, e.0, e.1);
      forall c | c in border' ensures Open(white, bounds, c) && BorderClosed(white, bounds, border', c) {
        if c in border {
          assert BorderClosed(white, bounds, border, c);
        } else {
          assert Touched(border, border', e, c);
        }
      }
      assert Touched(border, border', e, e);
    }
  }

  /**
   * mark_background: flood the non-white cells from every open cell of the rectangle's outline, top
   * and bottom rows first, then left and right columns. Every cell collected is inside the rectangle
   * and outside the white set, and the collection is closed under open 4-neighbours of its cells and
   * of every open outline cell.
   */
  method MarkBackground(white: set<Cell>, b: Boundary) returns (border: set<Cell>)
    ensures forall c :: c in border <==> Background(white, b, c)
    ensures BackgroundSound(white, b, border)
    ensures forall e :: OnEdge(e, b) && Open(white, b, e) ==> BorderClosed(white, b, border, e)
  {
    border := {};
    var i := b.xmin;
    while i <= b.xmax
      invariant b.xmin <= i <= b.xmax + 1 || (i == b.xmin && b.xmax < b.xmin)
      invariant BackgroundSound(white, b, border) && EdgesClosed(white, b, border, i, b.ymin)
      invariant forall c :: c in border ==> Background(white, b, c)
      decreases b.xmax + 1 - i
    {
      var b1 := SeedBackground(white, b, border, (b.ymin, i));
      var b2 := SeedBackground(white, b, b1, (b.ymax, i));
      EdgesGrow(white, b, border, b1, b2, true, i, b.ymin, (b.ymin, i), (b.ymax, i));
      border := b2;
      i := i + 1;
    }
    var r := b.ymin;
    while r <= b.ymax
      invariant b.ymin <= r <= b.ymax + 1 || (r == b.ymin && b.ymax < b.ymin)
      invariant BackgroundSound(white, b, border) && EdgesClosed(white, b, border, b.xmax + 1, r)
      invariant forall c :: c in border ==> Background(white, b, c)
      decreases b.ymax + 1 - r
    {
      var b1 := SeedBackground(white, b, border, (r, b.xmin));
      var b2 := SeedBackground(white, b, b1, (r, b.xmax));
      EdgesGrow(white, b, border, b1, b2, false, b.xmax + 1, r, (r, b.xmin), (r, b.xmax));
      border := b2;
      r := r + 1;
    }
    BackgroundCovered(white, b, border);
  }

  /** A sound set closing every open outline cell holds the whole background. */
  lemma BackgroundCovered(white: set<Cell>, b: Boundary, border: set<Cell>)
    requires BackgroundSound(white, b, border)
    requires forall e :: OnEdge(e, b) && Open(white, b, e) ==> BorderClosed(white, b, border, e)
    ensures forall c :: Background(white, b, c) ==> c in border
  {
    forall c | Background(white, b, c) ensures c in border {
      var e :| Outline(e, b) && e !in white && OpenReach(white, b, e, c);
      var p :| OpenWalk(white, b, p) && p[0] == e && p[|p| - 1] == c;
      assert InBounds(p[1], b);
      assert OnEdge(e, b) && Open(white, b, e);
      WalkInside(white, b, border, p, |p| - 1);
    }
  }

  /** Two more outline cells closed: the outline scan advances by one column (or one row). */
  lemma EdgesGrow(white: set<Cell>, bounds: Boundary, border: set<Cell>, b1: set<Cell>, b2: set<Cell>,
                  rows: bool, i: int, r: int, e1: Cell, e2: Cell)
    requires EdgesClosed(white, bounds, border, i, r)
    requires forall c :: BorderClosed(white, bounds, border, c) ==> BorderClosed(white, bounds, b1, c)
    requires forall c :: BorderClosed(white, bounds, b1, c) ==> BorderClosed(white, bounds, b2, c)
    requires Open(white, bounds, e1) ==> BorderClosed(white, bounds, b1, e1)
    requires Open(white, bounds, e2) ==> BorderClosed(white, bounds, b2, e2)
    requires if rows then e1 == (bounds.ymin, i) && e2 == (bounds.ymax, i) else e1 == (r, bounds.xmin) && e2 == (r, bounds.xmax)
    ensures rows ==> EdgesClosed(white, bounds, b2, i + 1, r)
    ensures !rows ==> EdgesClosed(white, bounds, b2, i, r + 1)
  {
  }
}
