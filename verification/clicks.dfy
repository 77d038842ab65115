/**
  Resolving a click (`blockClicked`): hide the clicked block's connected
  region, then collapse. The DOM refresh it triggers is reduced to the
  boolean that decides whether it happens.
 */
module Clicks {
  import opened Blocks
  import opened BlockGrid
  import opened Connected
  import opened Gravity

  /**
    Mark every block of `s` hidden, in place (`connectedBlock.hidden = true`):
    the grid keeps its shape, a block ends hidden exactly when it was hidden
    or is in `s`, and nothing else about any block changes.
   */
  function Hide(g: Grid, s: set<Block>): (r: Grid)
    ensures |r| == |g|
    ensures forall x :: 0 <= x < |g| ==> |r[x]| == |g[x]|
    ensures forall x, y :: 0 <= x < |g| && 0 <= y < |g[x]| ==>
              && r[x][y].(hidden := false) == g[x][y].(hidden := false)
              && (r[x][y].hidden <==> g[x][y].hidden || g[x][y] in s)
  {
    seq(|g|, x requires 0 <= x < |g| =>
      seq(|g[x]|, y requires 0 <= y < |g[x]| =>
        if g[x][y] in s then g[x][y].(hidden := true) else g[x][y]))
  }

  /**
    `g` with the connected region of `a` hidden: a block becomes hidden
    exactly when it is reachable from `a`; everything else is kept.
   */
  ghost function HideRegion(g: Grid, a: Block): Grid {
    seq(|g|, x requires 0 <= x < |g| =>
      seq(|g[x]|, y requires 0 <= y < |g[x]| =>
        if Reachable(g, a, g[x][y]) then g[x][y].(hidden := true) else g[x][y]))
  }

  /** Hiding a set that holds exactly the blocks reachable from `a` hides the region of `a`. */
  lemma HideReachable(g: Grid, a: Block, s: set<Block>)
    requires forall b :: b in s <==> Reachable(g, a, b)
    ensures Hide(g, s) == HideRegion(g, a)
  {
    var r, h := Hide(g, s), HideRegion(g, a);
    forall x | 0 <= x < |g|
      ensures r[x] == h[x]
    {
      forall y | 0 <= y < |g[x]|
        ensures r[x][y] == h[x][y]
      {
        assert g[x][y] in s <==> Reachable(g, a, g[x][y]);
      }
    }
  }

  lemma HideKeepsWellFormed(g: Grid, s: set<Block>)
    requires WellFormed(g)
    ensures WellFormed(Hide(g, s))
  {
    var r: Grid := Hide(g, s);
    forall x, y | 0 <= x < MaxX && 0 <= y < MaxY
      ensures r[x][y].x == x && r[x][y].y == y
    {
      assert r[x][y].(hidden := false).x == g[x][y].(hidden := false).x;
      assert r[x][y].(hidden := false).y == g[x][y].(hidden := false).y;
    }
  }

  /**
    `blockClicked`, returning the new grid and whether the view would be
    refreshed. A click on a hidden block changes nothing and refreshes
    nothing. A click on a visible block yields the collapse of the grid in
    which exactly the block's connected region has been hidden, leaves
    every column settled, and always refreshes, since the clicked block
    itself is hidden.
   */
  method BlockClicked(g: Grid, block: Block) returns (g': Grid, changed: bool)
    requires WellFormed(g)
    requires InGrid(g, block)
    ensures WellFormed(g')
    ensures changed <==> !block.hidden
    ensures block.hidden ==> g' == g
    ensures !block.hidden ==> g' == Collapse(HideRegion(g, block)).grid
    ensures !block.hidden ==> forall x :: 0 <= x < |g'| ==> Settled(g'[x])
  {
    if block.hidden {
      return g, false;
    }
    var connected := GetConnectedBlocks(g, block);
    var marked := set b | b in connected;
    var hidden: Grid := Hide(g, marked);
    HideReachable(g, block, marked);
    HideKeepsWellFormed(g, marked);
    assert hidden[block.x][block.y].hidden;
    var collapsed := Collapse(hidden);
    CollapseKeepsWellFormed(hidden);
    g', changed := collapsed.grid, collapsed.changed;
  }
}
