/**
  `collapse`: removed (hidden) blocks rise to the top of their column and
  the remaining blocks fall to fill the gaps, each group keeping its
  vertical order, after which every block's row is renumbered.
 */
module Gravity {
  import opened Blocks
  import opened BlockGrid

  /** The blocks of `col` whose `hidden` flag is `h`, in column order (`col.filter`). */
  function WithHidden(col: seq<Block>, h: bool): (r: seq<Block>)
    ensures |r| <= |col|
    ensures forall b :: b in r <==> b in col && b.hidden == h
  {
    if col == [] then []
    else if col[0].hidden == h then [col[0]] + WithHidden(col[1..], h)
    else WithHidden(col[1..], h)
  }

  /** Each block of `col` with its row set to its index (the `map` over the rebuilt column). */
  function Renumber(col: seq<Block>): (r: seq<Block>)
    ensures |r| == |col|
    ensures forall i :: 0 <= i < |r| ==> r[i].y == i
    ensures forall i :: 0 <= i < |r| ==>
              r[i].id == col[i].id && r[i].x == col[i].x && r[i].colour == col[i].colour && r[i].hidden == col[i].hidden
  {
    seq(|col|, i requires 0 <= i < |col| => col[i].(y := i))
  }

  /** A block with its row forgotten: the part of a block `collapse` must not change. */
  function Unplaced(b: Block): Block {
    b.(y := 0)
  }

  function UnplacedAll(col: seq<Block>): (r: seq<Block>)
    ensures |r| == |col|
  {
    seq(|col|, i requires 0 <= i < |col| => Unplaced(col[i]))
  }

  /** A settled column: rows numbered by index, and no visible block above a hidden one. */
  ghost predicate Settled(col: seq<Block>) {
    && (forall i :: 0 <= i < |col| ==> col[i].y == i)
    && (forall i, j :: 0 <= i < j < |col| && col[i].hidden ==> col[j].hidden)
  }

  /**
    `after` is a stable rearrangement of `before`: up to rows, its visible
    blocks are those of `before` in the same order, and so are its hidden ones.
   */
  ghost predicate StablyRearranged(after: seq<Block>, before: seq<Block>) {
    && UnplacedAll(WithHidden(after, false)) == UnplacedAll(WithHidden(before, false))
    && UnplacedAll(WithHidden(after, true)) == UnplacedAll(WithHidden(before, true))
  }

  lemma {:induction false} WithHiddenConcat(a: seq<Block>, b: seq<Block>, h: bool)
    ensures WithHidden(a + b, h) == WithHidden(a, h) + WithHidden(b, h)
  {
    if a != [] {
      assert (a + b)[0] == a[0];
      assert (a + b)[1..] == a[1..] + b;
      WithHiddenConcat(a[1..], b, h);
    } else {
      assert a + b == b;
    }
  }

  lemma {:induction false} WithHiddenAll(col: seq<Block>, h: bool)
    requires forall i :: 0 <= i < |col| ==> col[i].hidden == h
    ensures WithHidden(col, h) == col
    ensures WithHidden(col, !h) == []
  {
    if col != [] {
      WithHiddenAll(col[1..], h);
      assert col == [col[0]] + col[1..];
    }
  }

  lemma UnplacedConcat(a: seq<Block>, b: seq<Block>)
    ensures UnplacedAll(a + b) == UnplacedAll(a) + UnplacedAll(b)
  {
  }

  /** Filtering by `hidden` commutes with forgetting rows. */
  lemma {:induction false} UnplacedWithHidden(col: seq<Block>, h: bool)
    ensures UnplacedAll(WithHidden(col, h)) == WithHidden(UnplacedAll(col), h)
  {
    if col != [] {
      var rest := col[1..];
      UnplacedWithHidden(rest, h);
      assert col == [col[0]] + rest;
      UnplacedConcat([col[0]], rest);
      var u := UnplacedAll(col);
      assert u[0] == Unplaced(col[0]) && u[1..] == UnplacedAll(rest);
      if col[0].hidden == h {
        UnplacedConcat([col[0]], WithHidden(rest, h));
      }
    }
  }

  /** The visible and the hidden blocks of a column together make up the column. */
  lemma {:induction false} WithHiddenSplits(col: seq<Block>)
    ensures multiset(WithHidden(col, false)) + multiset(WithHidden(col, true)) == multiset(col)
    ensures |WithHidden(col, false)| + |WithHidden(col, true)| == |col|
  {
    if col != [] {
      WithHiddenSplits(col[1..]);
      assert col == [col[0]] + col[1..];
    }
  }

  /** A column whose hidden blocks all lie above its visible ones is its visible blocks followed by its hidden ones. */
  lemma {:induction false} PartitionedSplits(col: seq<Block>)
    requires forall i, j :: 0 <= i < j < |col| && col[i].hidden ==> col[j].hidden
    ensures col == WithHidden(col, false) + WithHidden(col, true)
  {
    if col != [] {
      SettledTail(col);
      PartitionedSplits(col[1..]);
      if col[0].hidden {
        WithHiddenAll(col, true);
      }
    }
  }

  lemma SettledTail(col: seq<Block>)
    requires col != []
    requires forall i, j :: 0 <= i < j < |col| && col[i].hidden ==> col[j].hidden
    ensures forall i, j :: 0 <= i < j < |col[1..]| && col[1..][i].hidden ==> col[1..][j].hidden
    ensures col[0].hidden ==> forall i :: 0 <= i < |col| ==> col[i].hidden
  {
    assert forall i :: 0 <= i < |col[1..]| ==> col[1..][i] == col[i + 1];
  }

  /** Renumbering rows changes nothing but rows. */
  lemma RenumberKeepsUnplaced(col: seq<Block>)
    ensures UnplacedAll(Renumber(col)) == UnplacedAll(col)
  {
  }

  /** Renumbering rows keeps, up to rows, the visible and the hidden subsequences. */
  lemma RenumberStable(col: seq<Block>, h: bool)
    ensures UnplacedAll(WithHidden(Renumber(col), h)) == UnplacedAll(WithHidden(col, h))
  {
    UnplacedWithHidden(Renumber(col), h);
    RenumberKeepsUnplaced(col);
    UnplacedWithHidden(col, h);
  }

  /**
    One column of `collapse`: the visible blocks, then the hidden ones, rows
    renumbered. The result is settled, a stable rearrangement of the column,
    and holds the same blocks up to rows.
   */
  function CollapseColumn(col: seq<Block>): (r: seq<Block>)
    ensures |r| == |col|
    ensures Settled(r)
    ensures StablyRearranged(r, col)
    ensures multiset(UnplacedAll(r)) == multiset(UnplacedAll(col))
  {
    var visible := WithHidden(col, false);
    var hidden := WithHidden(col, true);
    var r := Renumber(visible + hidden);
    WithHiddenSplits(col);
    CollapseColumnSettled(visible, hidden, col);
    CollapseColumnStable(visible, hidden, col);
    CollapseColumnPermutes(visible, hidden, col);
    r
  }

  lemma CollapseColumnSettled(visible: seq<Block>, hidden: seq<Block>, col: seq<Block>)
    requires visible == WithHidden(col, false) && hidden == WithHidden(col, true)
    ensures Settled(Renumber(visible + hidden))
  {
    var r := Renumber(visible + hidden);
    forall i | 0 <= i < |r|
      ensures r[i].hidden == (i >= |visible|)
    {
      if i < |visible| {
        assert visible[i] in visible;
      } else {
        assert hidden[i - |visible|] in hidden;
      }
    }
  }

  lemma CollapseColumnStable(visible: seq<Block>, hidden: seq<Block>, col: seq<Block>)
    requires visible == WithHidden(col, false) && hidden == WithHidden(col, true)
    ensures StablyRearranged(Renumber(visible + hidden), col)
  {
    assert forall i :: 0 <= i < |visible| ==> visible[i] in visible;
    assert forall i :: 0 <= i < |hidden| ==> hidden[i] in hidden;
    WithHiddenAll(visible, false);
    WithHiddenAll(hidden, true);
    WithHiddenConcat(visible, hidden, false);
    WithHiddenConcat(visible, hidden, true);
    assert visible + [] == visible && [] + hidden == hidden;
    RenumberStable(visible + hidden, false);
    RenumberStable(visible + hidden, true);
  }

  lemma CollapseColumnPermutes(visible: seq<Block>, hidden: seq<Block>, col: seq<Block>)
    requires visible == WithHidden(col, false) && hidden == WithHidden(col, true)
    ensures multiset(UnplacedAll(Renumber(visible + hidden))) == multiset(UnplacedAll(col))
  {
    RenumberKeepsUnplaced(visible + hidden);
    UnplacedConcat(visible, hidden);
    UnplacedWithHidden(col, false);
    UnplacedWithHidden(col, true);
    WithHiddenSplits(UnplacedAll(col));
  }

  /** Whether `col` holds a hidden block (`hiddenList.length > 0`). */
  function HasHidden(col: seq<Block>): (b: bool)
    ensures b <==> exists y :: 0 <= y < |col| && col[y].hidden
  {
    var hidden := WithHidden(col, true);
    assert hidden != [] ==> hidden[0] in col;
    assert forall y :: 0 <= y < |col| && col[y].hidden ==> col[y] in hidden;
    hidden != []
  }

  /** Result of `collapse`: the new grid and whether any block was hidden. */
  datatype Collapsed = Collapsed(grid: Grid, changed: bool)

  /**
    `collapse`: every column collapsed independently. Columns keep their
    number and length, each becomes settled and a stable rearrangement of
    its old contents, and `changed` holds exactly when some block is hidden.
   */
  function Collapse(g: Grid): (r: Collapsed)
    ensures |r.grid| == |g|
    ensures forall x :: 0 <= x < |g| ==>
              && |r.grid[x]| == |g[x]|
              && Settled(r.grid[x])
              && StablyRearranged(r.grid[x], g[x])
              && multiset(UnplacedAll(r.grid[x])) == multiset(UnplacedAll(g[x]))
    ensures r.changed <==> exists x, y :: 0 <= x < |g| && 0 <= y < |g[x]| && g[x][y].hidden
  {
    Collapsed(seq(|g|, x requires 0 <= x < |g| => CollapseColumn(g[x])),
              exists x :: 0 <= x < |g| && HasHidden(g[x]))
  }

  /** Collapsing an already settled column leaves it unchanged. */
  lemma CollapseSettledColumn(col: seq<Block>)
    requires Settled(col)
    ensures CollapseColumn(col) == col
  {
    PartitionedSplits(col);
    var both := WithHidden(col, false) + WithHidden(col, true);
    assert Renumber(both) == col;
  }

  /**
    The contract of `CollapseColumn` pins its result down: any settled
    column of the same length that stably rearranges `col` is the collapsed
    column.
   */
  lemma CollapseColumnUnique(col: seq<Block>, other: seq<Block>)
    requires |other| == |col|
    requires Settled(other)
    requires StablyRearranged(other, col)
    ensures other == CollapseColumn(col)
  {
    var r := CollapseColumn(col);
    PartitionedSplits(other);
    PartitionedSplits(r);
    UnplacedConcat(WithHidden(other, false), WithHidden(other, true));
    UnplacedConcat(WithHidden(r, false), WithHidden(r, true));
    assert UnplacedAll(other) == UnplacedAll(r);
    forall i | 0 <= i < |other|
      ensures other[i] == r[i]
    {
      assert UnplacedAll(other)[i] == UnplacedAll(r)[i];
    }
  }

  /** In a collapsed column the hidden blocks are exactly the top ones, as many as the column had. */
  lemma CollapseColumnHiddenOnTop(col: seq<Block>)
    ensures forall i :: 0 <= i < |col| ==>
              (CollapseColumn(col)[i].hidden <==> i >= |col| - |WithHidden(col, true)|)
  {
    var r := CollapseColumn(col);
    PartitionedSplits(r);
    assert |WithHidden(r, true)| == |WithHidden(col, true)| by {
      assert |UnplacedAll(WithHidden(r, true))| == |UnplacedAll(WithHidden(col, true))|;
    }
    var visible := WithHidden(r, false);
    forall i | 0 <= i < |col|
      ensures r[i].hidden <==> i >= |col| - |WithHidden(col, true)|
    {
      if i < |visible| {
        assert r[i] == visible[i] && visible[i] in visible;
      } else {
        assert r[i] == WithHidden(r, true)[i - |visible|];
        assert r[i] in WithHidden(r, true);
      }
    }
  }

  /** `collapse` twice is `collapse` once. */
  lemma CollapseIdempotent(g: Grid)
    ensures Collapse(Collapse(g).grid).grid == Collapse(g).grid
  {
    var once := Collapse(g).grid;
    forall x | 0 <= x < |once|
      ensures CollapseColumn(once[x]) == once[x]
    {
      CollapseSettledColumn(once[x]);
    }
  }

  /** With no hidden block, `collapse` reports no change and leaves a well-formed grid as it was. */
  lemma CollapseWithoutHidden(g: Grid)
    requires WellFormed(g)
    requires forall x, y :: 0 <= x < MaxX && 0 <= y < MaxY ==> !g[x][y].hidden
    ensures Collapse(g) == Collapsed(g, false)
  {
    forall x | 0 <= x < |g|
      ensures CollapseColumn(g[x]) == g[x]
    {
      CollapseSettledColumn(g[x]);
    }
  }

  /** A block of a collapsed column is, up to its row, a block of the old column. */
  lemma CollapsedBlockCameFromColumn(col: seq<Block>, i: int)
    requires 0 <= i < |col|
    ensures exists j :: 0 <= j < |col| && Unplaced(CollapseColumn(col)[i]) == Unplaced(col[j])
  {
    var r := CollapseColumn(col);
    assert UnplacedAll(r)[i] in multiset(UnplacedAll(r));
    assert Unplaced(r[i]) in UnplacedAll(col);
  }

  /** `collapse` keeps the grid's shape and keeps every block's stored coordinate in sync. */
  lemma CollapseKeepsWellFormed(g: Grid)
    requires WellFormed(g)
    ensures WellFormed(Collapse(g).grid)
  {
    var r: Grid := Collapse(g).grid;
    forall x, y | 0 <= x < MaxX && 0 <= y < MaxY
      ensures r[x][y].x == x && r[x][y].y == y
    {
      CollapsedBlockCameFromColumn(g[x], y);
    }
  }
}
