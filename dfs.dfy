/** `dfs` of lib/dfs.js: an 8-connected flood fill over a caller-owned `vis` grid. */
module Dfs {
  import TextBlocks

  type Cell = TextBlocks.Cell

  /** A cell of an h-by-w grid. */
  predicate InGrid(h: int, w: int, c: Cell)
  {
    0 <= c.0 < h && 0 <= c.1 < w
  }

  /** The cell at position t (0..8) of the neighbour loop: dy = t / 3 - 1 outer, dx = t % 3 - 1 inner. */
  function Offset(c: Cell, t: int): Cell
  {
    var dy := if t < 3 then -1 else if t < 6 then 0 else 1;
    var dx := if t == 0 || t == 3 || t == 6 then -1 else if t == 1 || t == 4 || t == 7 then 0 else 1;
    (c.0 + dy, c.1 + dx)
  }

  /** a and b differ by at most one in each coordinate (a cell is adjacent to itself, as in the source's loop). */
  predicate Adjacent(a: Cell, b: Cell)
  {
    -1 <= b.0 - a.0 <= 1 && -1 <= b.1 - a.1 <= 1
  }

  /** The nine positions of the neighbour loop are exactly the adjacent cells. */
  lemma OffsetAdjacent(a: Cell, b: Cell)
    ensures Adjacent(a, b) <==> exists t :: 0 <= t < 9 && Offset(a, t) == b
  {
    if Adjacent(a, b) {
      var t := (b.0 - a.0 + 1) * 3 + (b.1 - a.1 + 1);
      assert Offset(a, t) == b;
    }
  }

  /** A cell the fill may enter: on the grid, accepted by `check`, and not marked before the call. */
  ghost predicate Open(h: int, w: int, check: (int, int) -> bool, pre: set<Cell>, c: Cell)
  {
    InGrid(h, w, c) && check(c.0, c.1) && c !in pre
  }

  /** Every open cell adjacent to `c` is marked, before the call or by it. */
  ghost predicate Closed8(h: int, w: int, check: (int, int) -> bool, pre: set<Cell>, marked: set<Cell>, c: Cell)
  {
    forall t :: 0 <= t < 9 && Open(h, w, check, pre, Offset(c, t)) ==> Offset(c, t) in marked
  }

  /** A walk of adjacent open cells. */
  ghost predicate IsPath(h: int, w: int, check: (int, int) -> bool, pre: set<Cell>, p: seq<Cell>)
  {
    && (forall k :: 0 <= k < |p| ==> Open(h, w, check, pre, p[k]))
    && (forall k :: 0 < k < |p| ==> Adjacent(p[k - 1], p[k]))
  }

  /** `c` is reached from `seed` by a walk of adjacent open cells. */
  ghost predicate Reachable(h: int, w: int, check: (int, int) -> bool, pre: set<Cell>, seed: Cell, c: Cell)
  {
    exists p :: IsPath(h, w, check, pre, p) && |p| > 0 && p[0] == seed && p[|p| - 1] == c
  }

  /** An open cell adjacent to a reachable one is reachable. */
  lemma ReachStep(h: int, w: int, check: (int, int) -> bool, pre: set<Cell>, seed: Cell, c: Cell, n: Cell)
    requires Reachable(h, w, check, pre, seed, c) && Adjacent(c, n) && Open(h, w, check, pre, n)
    ensures Reachable(h, w, check, pre, seed, n)
  {
    var p :| IsPath(h, w, check, pre, p) && |p| > 0 && p[0] == seed && p[|p| - 1] == c;
    var p' := p + [n];
    assert IsPath(h, w, check, pre, p');
    assert p'[0] == seed && p'[|p'| - 1] == n;
  }

  /** A marked set that holds the seed and whose every cell is closed holds every walk from the seed. */
  lemma {:induction false} ClosedHoldsPath(h: int, w: int, check: (int, int) -> bool, pre: set<Cell>,
                                          marked: set<Cell>, p: seq<Cell>, k: nat)
    requires IsPath(h, w, check, pre, p) && |p| > 0 && p[0] in marked && k < |p|
    requires forall c :: c in marked ==> Closed8(h, w, check, pre, marked, c)
    ensures p[k] in marked
  {
    if k > 0 {
      ClosedHoldsPath(h, w, check, pre, marked, p, k - 1);
      OffsetAdjacent(p[k - 1], p[k]);
      var t :| 0 <= t < 9 && Offset(p[k - 1], t) == p[k];
      assert Closed8(h, w, check, pre, marked, p[k - 1]);
    }
  }

  /** The whole grid. */
  function Grid(h: int, w: int): (r: set<Cell>)
    ensures forall c :: c in r <==> InGrid(h, w, c)
  {
    set i, j | 0 <= i < h && 0 <= j < w :: (i, j)
  }

  /**
   * The marks made so far: the seed, then open cells reached from it; each on the stack or already
   * handed to `callback` (never both, never twice); every handled cell closed.
   */
  ghost predicate DfsInv(h: int, w: int, check: (int, int) -> bool, pre: set<Cell>, seed: Cell,
                         marked: set<Cell>, stack: seq<Cell>, calls: seq<Cell>)
  {
    && seed in marked
    && MarkedReached(h, w, check, pre, seed, marked)
    && (forall c :: c in marked ==> c in stack || c in calls)
    && StackPending(marked, stack, calls)
    && CallsClosed(h, w, check, pre, marked, calls)
    && TextBlocks.NoDuplicates(stack) && TextBlocks.NoDuplicates(calls)
  }

  ghost predicate MarkedReached(h: int, w: int, check: (int, int) -> bool, pre: set<Cell>, seed: Cell, marked: set<Cell>)
  {
    forall c :: c in marked ==> Open(h, w, check, pre, c) && Reachable(h, w, check, pre, seed, c)
  }

  ghost predicate StackPending(marked: set<Cell>, stack: seq<Cell>, calls: seq<Cell>)
  {
    forall k :: 0 <= k < |stack| ==> stack[k] in marked && stack[k] !in calls
  }

  ghost predicate CallsClosed(h: int, w: int, check: (int, int) -> bool, pre: set<Cell>, marked: set<Cell>, calls: seq<Cell>)
  {
    forall k :: 0 <= k < |calls| ==> calls[k] in marked && Closed8(h, w, check, pre, marked, calls[k])
  }

  /** What the neighbour loop of one popped cell `c` adds: open cells adjacent to `c`, each pushed once. */
  ghost predicate Extends(h: int, w: int, check: (int, int) -> bool, pre: set<Cell>, c: Cell,
                          marked: set<Cell>, stack: seq<Cell>, marked': set<Cell>, stack': seq<Cell>)
  {
    && marked <= marked'
    && (forall n :: n in marked' && n !in marked ==> Open(h, w, check, pre, n) && Adjacent(c, n) && n in stack')
    && |stack| <= |stack'| && stack'[..|stack|] == stack
    && (forall k :: |stack| <= k < |stack'| ==> stack'[k] in marked' && stack'[k] !in marked)
    && TextBlocks.NoDuplicates(stack'[|stack|..])
    && (marked' == marked ==> stack' == stack)
    && (marked' != marked ==> |Grid(h, w) - marked'| < |Grid(h, w) - marked|)
  }

  lemma ExtendsPush(h: int, w: int, check: (int, int) -> bool, pre: set<Cell>, c: Cell,
                    marked: set<Cell>, stack: seq<Cell>, marked': set<Cell>, stack': seq<Cell>, n: Cell)
    requires Extends(h, w, check, pre, c, marked, stack, marked', stack')
    requires Open(h, w, check, pre, n) && Adjacent(c, n) && n !in marked'
    ensures Extends(h, w, check, pre, c, marked, stack, marked' + {n}, stack' + [n])
  {
    TextBlocks.RemainingShrinks(Grid(h, w), marked', n);
    var s := stack' + [n];
    assert s[..|stack|] == stack'[..|stack|];
    assert s[|stack|..] == stack'[|stack|..] + [n];
  }

  /** One pop of the loop keeps the invariant. */
  lemma DfsStep(h: int, w: int, check: (int, int) -> bool, pre: set<Cell>, seed: Cell,
                marked: set<Cell>, stack: seq<Cell>, calls: seq<Cell>, c: Cell,
                marked': set<Cell>, stack': seq<Cell>)
    requires DfsInv(h, w, check, pre, seed, marked, stack + [c], calls)
    requires Extends(h, w, check, pre, c, marked, stack, marked', stack')
    requires Closed8(h, w, check, pre, marked', c)
    ensures DfsInv(h, w, check, pre, seed, marked', stack', calls + [c])
  {
    assert (stack + [c])[|stack|] == c;
    assert c in marked && c !in calls;
    ReachedGrows(h, w, check, pre, seed, marked, c, marked', stack, stack');
    StackAfterPop(h, w, check, pre, marked, stack, calls, c, marked', stack');
    CallsAfterPop(h, w, check, pre, marked, calls, c, marked');
    CoverAfterPop(h, w, check, pre, marked, stack, calls, c, marked', stack');
    PushedOnce(marked, stack, calls, c, stack');
    assert TextBlocks.NoDuplicates(calls + [c]);
  }

  lemma ReachedGrows(h: int, w: int, check: (int, int) -> bool, pre: set<Cell>, seed: Cell,
                     marked: set<Cell>, c: Cell, marked': set<Cell>, stack: seq<Cell>, stack': seq<Cell>)
    requires MarkedReached(h, w, check, pre, seed, marked) && c in marked
    requires Extends(h, w, check, pre, c, marked, stack, marked', stack')
    ensures MarkedReached(h, w, check, pre, seed, marked')
  {
    forall n | n in marked' ensures Open(h, w, check, pre, n) && Reachable(h, w, check, pre, seed, n) {
      if n !in marked {
        ReachStep(h, w, check, pre, seed, c, n);
      }
    }
  }

  lemma StackAfterPop(h: int, w: int, check: (int, int) -> bool, pre: set<Cell>,
                      marked: set<Cell>, stack: seq<Cell>, calls: seq<Cell>, c: Cell, marked': set<Cell>, stack': seq<Cell>)
    requires StackPending(marked, stack + [c], calls) && TextBlocks.NoDuplicates(stack + [c])
    requires CallsClosed(h, w, check, pre, marked, calls)
    requires Extends(h, w, check, pre, c, marked, stack, marked', stack')
    ensures StackPending(marked', stack', calls + [c])
  {
    forall k | 0 <= k < |stack'| ensures stack'[k] in marked' && stack'[k] !in calls + [c] {
      if k < |stack| {
        assert stack'[k] == stack[k] == (stack + [c])[k];
        assert (stack + [c])[|stack|] == c;
      } else {
        assert stack'[k] !in marked;
        assert (stack + [c])[|stack|] == c;
        assert stack'[k] !in calls;
      }
    }
  }

  lemma CallsAfterPop(h: int, w: int, check: (int, int) -> bool, pre: set<Cell>,
                      marked: set<Cell>, calls: seq<Cell>, c: Cell, marked': set<Cell>)
    requires CallsClosed(h, w, check, pre, marked, calls) && c in marked && marked <= marked'
    requires Closed8(h, w, check, pre, marked', c)
    ensures CallsClosed(h, w, check, pre, marked', calls + [c])
  {
    forall k | 0 <= k < |calls| + 1 ensures (calls + [c])[k] in marked' && Closed8(h, w, check, pre, marked', (calls + [c])[k]) {
      if k < |calls| {
        Closed8Grows(h, w, check, pre, marked, marked', calls[k]);
      } else {
        assert (calls + [c])[k] == c;
      }
    }
  }

  lemma CoverAfterPop(h: int, w: int, check: (int, int) -> bool, pre: set<Cell>,
                      marked: set<Cell>, stack: seq<Cell>, calls: seq<Cell>, c: Cell, marked': set<Cell>, stack': seq<Cell>)
    requires forall v :: v in marked ==> v in stack + [c] || v in calls
    requires Extends(h, w, check, pre, c, marked, stack, marked', stack')
    ensures forall v :: v in marked' ==> v in stack' || v in calls + [c]
  {
    forall v | v in marked' ensures v in stack' || v in calls + [c] {
      if v in marked && v != c && v !in calls {
        var k :| 0 <= k < |stack + [c]| && (stack + [c])[k] == v;
        assert k < |stack| && stack'[k] == v;
      }
    }
  }

  /** Closure survives more marks. */
  lemma Closed8Grows(h: int, w: int, check: (int, int) -> bool, pre: set<Cell>, marked: set<Cell>, marked': set<Cell>, c: Cell)
    requires Closed8(h, w, check, pre, marked, c) && marked <= marked'
    ensures Closed8(h, w, check, pre, marked', c)
  {
  }

  /** The stack after a pop and pushes of cells not marked before holds no cell twice. */
  lemma PushedOnce(marked: set<Cell>, stack: seq<Cell>, calls: seq<Cell>, c: Cell, stack': seq<Cell>)
    requires TextBlocks.NoDuplicates(stack + [c]) && StackPending(marked, stack + [c], calls)
    requires |stack| <= |stack'| && stack'[..|stack|] == stack && TextBlocks.NoDuplicates(stack'[|stack|..])
    requires forall k :: |stack| <= k < |stack'| ==> stack'[k] !in marked
    ensures TextBlocks.NoDuplicates(stack')
  {
    forall k, l | 0 <= k < l < |stack'| ensures stack'[k] != stack'[l] {
      if l < |stack| {
        assert stack'[k] == (stack + [c])[k] && stack'[l] == (stack + [c])[l];
      } else if k < |stack| {
        assert stack'[k] == stack[k] == (stack + [c])[k];
      } else {
        assert stack'[k] == stack'[|stack|..][k - |stack|];
        assert stack'[l] == stack'[|stack|..][l - |stack|];
      }
    }
  }

  /** The marks on the grid are those made before the call and those the call has made. */
  ghost predicate Marks(vis: array2<bool>, pre: set<Cell>, marked: set<Cell>)
    reads vis
  {
    forall i, j :: 0 <= i < vis.Length0 && 0 <= j < vis.Length1 ==> vis[i, j] == ((i, j) in pre || (i, j) in marked)
  }

  /** The `dy`/`dx` loops for the popped cell `c`: mark and push each unmarked neighbour on the grid that `check` accepts. */
  method PushNeighbours(vis: array2<bool>, h: int, w: int, check: (int, int) -> bool, ghost pre: set<Cell>,
                        c: Cell, ghost marked: set<Cell>, stack: seq<Cell>)
    returns (ghost marked': set<Cell>, stack': seq<Cell>)
    requires vis.Length0 == h && vis.Length1 == w
    requires Marks(vis, pre, marked)
    modifies vis
    ensures Marks(vis, pre, marked')
    ensures Extends(h, w, check, pre, c, marked, stack, marked', stack')
    ensures Closed8(h, w, check, pre, marked', c)
  {
    marked', stack' := marked, stack;
    var t := 0;
    while t < 9
      invariant 0 <= t <= 9
      invariant Marks(vis, pre, marked')
      invariant Extends(h, w, check, pre, c, marked, stack, marked', stack')
      invariant forall u :: 0 <= u < t && Open(h, w, check, pre, Offset(c, u)) ==> Offset(c, u) in marked'
    {
      marked', stack' := Visit(vis, h, w, check, pre, c, Offset(c, t), marked, stack, marked', stack');
      t := t + 1;
    }
  }

  /** The `while (stack.length)` loop, from the marked seed alone on the stack until the stack is empty. */
  method Drain(vis: array2<bool>, h: int, w: int, check: (int, int) -> bool, ghost pre: set<Cell>, seed: Cell)
    returns (calls: seq<Cell>, ghost marked: set<Cell>)
    requires vis.Length0 == h && vis.Length1 == w
    requires DfsInv(h, w, check, pre, seed, {seed}, [seed], []) && Marks(vis, pre, {seed})
    modifies vis
    ensures DfsInv(h, w, check, pre, seed, marked, [], calls) && Marks(vis, pre, marked)
  {
    var stack := [seed];
    calls, marked := [], {seed};
    while |stack| > 0
      invariant DfsInv(h, w, check, pre, seed, marked, stack, calls)
      invariant Marks(vis, pre, marked)
      decreases |Grid(h, w) - marked|, |stack|
    {
      calls, marked, stack := Pop(vis, h, w, check, pre, seed, calls, marked, stack);
    }
  }

  /** One iteration: pop a cell, hand it to `callback`, push its unmarked accepted neighbours. */
  method Pop(vis: array2<bool>, h: int, w: int, check: (int, int) -> bool, ghost pre: set<Cell>, ghost seed: Cell,
             calls: seq<Cell>, ghost marked: set<Cell>, stack: seq<Cell>)
    returns (calls': seq<Cell>, ghost marked': set<Cell>, stack': seq<Cell>)
    requires vis.Length0 == h && vis.Length1 == w && |stack| > 0
    requires DfsInv(h, w, check, pre, seed, marked, stack, calls) && Marks(vis, pre, marked)
    modifies vis
    ensures DfsInv(h, w, check, pre, seed, marked', stack', calls') && Marks(vis, pre, marked')
    ensures |Grid(h, w) - marked'| < |Grid(h, w) - marked| || (marked' == marked && |stack'| < |stack|)
  {
    var c := stack[|stack| - 1];
    var rest := stack[..|stack| - 1];
    assert rest + [c] == stack;
    marked', stack' := PushNeighbours(vis, h, w, check, pre, c, marked, rest);
    DfsStep(h, w, check, pre, seed, marked, rest, calls, c, marked', stack');
    calls' := calls + [c];
  }

  /** The body of the `dx` loop for neighbour n of c: mark and push n when it is on the grid, accepted and unmarked. */
  method Visit(vis: array2<bool>, h: int, w: int, check: (int, int) -> bool, ghost pre: set<Cell>, c: Cell, n: Cell,
               ghost marked: set<Cell>, ghost stack: seq<Cell>, ghost marked': set<Cell>, stack': seq<Cell>)
    returns (ghost marked'': set<Cell>, stack'': seq<Cell>)
    requires vis.Length0 == h && vis.Length1 == w && Adjacent(c, n)
    requires Marks(vis, pre, marked') && Extends(h, w, check, pre, c, marked, stack, marked', stack')
    modifies vis
    ensures Marks(vis, pre, marked'') && Extends(h, w, check, pre, c, marked, stack, marked'', stack'')
    ensures marked' <= marked'' && (Open(h, w, check, pre, n) ==> n in marked'')
  {
    marked'', stack'' := marked', stack';
    if 0 <= n.0 < h && 0 <= n.1 < w {
      if check(n.0, n.1) && !vis[n.0, n.1] {
        ExtendsPush(h, w, check, pre, c, marked, stack, marked', stack', n);
        stack'' := stack' + [n];
        vis[n.0, n.1] := true;
        marked'' := marked' + {n};
      }
    }
  }

  /**
   * dfs: when `check` accepts the seed and it is not yet marked, mark every cell reachable from it
   * through unmarked accepted cells, 8-connected, handing each newly marked cell to `callback`
   * exactly once. `calls` is the sequence of those `callback` calls; `pre` the marks before the call.
   */
  method Dfs(h: int, w: int, oy: int, ox: int, vis: array2<bool>, check: (int, int) -> bool)
    returns (calls: seq<Cell>, ghost pre: set<Cell>)
    requires vis.Length0 == h && vis.Length1 == w && InGrid(h, w, (oy, ox))
    modifies vis
    ensures forall i, j :: InGrid(h, w, (i, j)) ==> ((i, j) in pre <==> old(vis[i, j]))
    ensures forall i, j :: InGrid(h, w, (i, j)) ==> vis[i, j] == (old(vis[i, j]) || (i, j) in calls)
    ensures !check(oy, ox) || old(vis[oy, ox]) ==> calls == []
    ensures TextBlocks.NoDuplicates(calls)
    ensures forall c :: c in calls <==> Reachable(h, w, check, pre, (oy, ox), c)
  {
    pre := set i, j | 0 <= i < h && 0 <= j < w && vis[i, j] :: (i, j);
    calls := [];
    var seed := (oy, ox);
    if !check(oy, ox) || vis[oy, ox] {
      ReachNeedsOpenSeed(h, w, check, pre, seed);
      return;
    }
    vis[oy, ox] := true;
    assert IsPath(h, w, check, pre, [seed]);
    ghost var marked;
    calls, marked := Drain(vis, h, w, check, pre, seed);
    DfsDone(h, w, check, pre, seed, marked, calls);
  }

  /** Only a seed the fill may enter reaches anything. */
  lemma ReachNeedsOpenSeed(h: int, w: int, check: (int, int) -> bool, pre: set<Cell>, seed: Cell)
    ensures forall c :: Reachable(h, w, check, pre, seed, c) ==> Open(h, w, check, pre, seed)
  {
    forall c | Reachable(h, w, check, pre, seed, c) ensures Open(h, w, check, pre, seed) {
      var p :| IsPath(h, w, check, pre, p) && |p| > 0 && p[0] == seed && p[|p| - 1] == c;
      assert Open(h, w, check, pre, p[0]);
    }
  }

  /** With the stack empty, the cells handed to `callback` are the marked ones, and exactly the reachable ones. */
  lemma DfsDone(h: int, w: int, check: (int, int) -> bool, pre: set<Cell>, seed: Cell, marked: set<Cell>, calls: seq<Cell>)
    requires DfsInv(h, w, check, pre, seed, marked, [], calls)
    ensures forall c :: c in marked <==> c in calls
    ensures forall c :: c in calls <==> Reachable(h, w, check, pre, seed, c)
  {
    forall c | Reachable(h, w, check, pre, seed, c) ensures c in calls {
      var p :| IsPath(h, w, check, pre, p) && |p| > 0 && p[0] == seed && p[|p| - 1] == c;
      forall v | v in marked ensures Closed8(h, w, check, pre, marked, v) {
        var k :| 0 <= k < |calls| && calls[k] == v;
      }
      ClosedHoldsPath(h, w, check, pre, marked, p, |p| - 1);
    }
  }
}
