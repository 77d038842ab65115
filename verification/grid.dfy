/**
  The grid container and the parts of `BlockGrid` that only read it:
  construction and neighbour lookup.
 */
module BlockGrid {
  import opened Blocks

  /** Columns of blocks, indexed `[x][y]`; row 0 is the bottom of a column. */
  type Grid = seq<seq<Block>>

  /**
    The shape every grid keeps: `MaxX` columns of `MaxY` blocks, and every
    block's stored coordinate equal to the cell it sits in.
   */
  ghost predicate WellFormed(g: Grid) {
    && |g| == MaxX
    && (forall x :: 0 <= x < MaxX ==> |g[x]| == MaxY)
    && (forall x, y :: 0 <= x < MaxX && 0 <= y < MaxY ==> g[x][y].x == x && g[x][y].y == y)
  }

  /** `b` is the block stored at its own coordinate in `g`. */
  predicate InGrid(g: Grid, b: Block) {
    0 <= b.x < |g| && 0 <= b.y < |g[b.x]| && g[b.x][b.y] == b
  }

  /** `a` and `b` are orthogonal neighbours: one step apart along exactly one axis. */
  predicate Adjacent(a: Block, b: Block) {
    || (a.x == b.x && (a.y - b.y == 1 || b.y - a.y == 1))
    || (a.y == b.y && (a.x - b.x == 1 || b.x - a.x == 1))
  }

  /** Every block of the grid. */
  ghost function AllBlocks(g: Grid): set<Block> {
    set x, y | 0 <= x < |g| && 0 <= y < |g[x]| :: g[x][y]
  }

  lemma InGridIsInAllBlocks(g: Grid, b: Block)
    requires InGrid(g, b)
    ensures b in AllBlocks(g)
  {
    assert g[b.x][b.y] == b;
  }

  /**
    The `BlockGrid` constructor. JavaScript draws a random colour for each
    block in column-major order; the draws are the parameter `rolls`, block
    (x, y) taking draw number `x * MaxY + y`.
   */
  method NewBlockGrid(rolls: seq<real>) returns (g: Grid)
    requires |rolls| == MaxX * MaxY
    requires forall i :: 0 <= i < |rolls| ==> 0.0 <= rolls[i] < 1.0
    ensures WellFormed(g)
    ensures forall x, y :: 0 <= x < MaxX && 0 <= y < MaxY ==>
              && g[x][y].id == Pos(x, y)
              && !g[x][y].hidden
              && g[x][y].colour == Colours[PaletteIndex(rolls[x * MaxY + y])]
  {
    g := [];
    var x := 0;
    while x < MaxX
      invariant 0 <= x <= MaxX
      invariant |g| == x
      invariant forall i :: 0 <= i < x ==> |g[i]| == MaxY
      invariant forall i, j :: 0 <= i < x && 0 <= j < MaxY ==>
                  g[i][j] == Block(Pos(i, j), i, j, Colours[PaletteIndex(rolls[i * MaxY + j])], false)
    {
      var col := [];
      var y := 0;
      while y < MaxY
        invariant 0 <= y <= MaxY
        invariant |col| == y
        invariant forall j :: 0 <= j < y ==>
                    col[j] == Block(Pos(x, j), x, j, Colours[PaletteIndex(rolls[x * MaxY + j])], false)
      {
        col := col + [NewBlock(x, y, rolls[x * MaxY + y])];
        y := y + 1;
      }
      g := g + [col];
      x := x + 1;
    }
  }

  /** Position of a neighbour in the result of `GetAdjacentBlocks`: left, right, below, above. */
  function Direction(b: Block, n: Block): int {
    if n.x < b.x then 0
    else if n.x > b.x then 1
    else if n.y < b.y then 2
    else 3
  }

  /** Number of grid edges (vertical and horizontal) the cell (x, y) lies on. */
  function EdgesTouched(b: Block): int {
    (if b.x == 0 || b.x == MaxX - 1 then 1 else 0) + (if b.y == 0 || b.y == MaxY - 1 then 1 else 0)
  }

  /**
    The in-bounds orthogonal neighbours of `b`, looked up through `b`'s
    stored coordinate: exactly the grid blocks adjacent to `b`, each once,
    in the order left, right, y - 1, y + 1; four for an interior cell, one
    fewer for each grid edge the cell lies on.
   */
  function GetAdjacentBlocks(g: Grid, b: Block): (r: seq<Block>)
    requires WellFormed(g)
    requires 0 <= b.x < MaxX && 0 <= b.y < MaxY
    ensures forall n :: n in r <==> InGrid(g, n) && Adjacent(b, n)
    ensures forall i, j :: 0 <= i < j < |r| ==> Direction(b, r[i]) < Direction(b, r[j])
    ensures |r| == 4 - EdgesTouched(b)
  {
    (if b.x > 0 then [g[b.x - 1][b.y]] else [])
    + (if b.x < MaxX - 1 then [g[b.x + 1][b.y]] else [])
    + (if b.y > 0 then [g[b.x][b.y - 1]] else [])
    + (if b.y < MaxY - 1 then [g[b.x][b.y + 1]] else [])
  }
}
