/**
  Same-colour connectivity: the flood fill behind `getConnectedBlocks`, and
  the reachability relation it computes.
 */
module Connected {
  import opened Blocks
  import opened BlockGrid

  /**
    `p` is a walk through the grid along orthogonal steps, every block of
    which has colour `c`; stated from the last step backwards.
   */
  ghost predicate IsPath(g: Grid, p: seq<Block>, c: Colour)
    decreases |p|
  {
    && |p| > 0
    && InGrid(g, p[|p| - 1]) && p[|p| - 1].colour == c
    && (|p| > 1 ==> Adjacent(p[|p| - 2], p[|p| - 1]) && IsPath(g, p[..|p| - 1], c))
  }

  /** `b` can be reached from `a` by a 4-adjacent path through blocks of `a`'s colour. */
  ghost predicate Reachable(g: Grid, a: Block, b: Block) {
    exists p :: IsPath(g, p, a.colour) && p[0] == a && p[|p| - 1] == b
  }

  /** No orthogonal neighbour of `a` shares its colour. */
  ghost predicate Isolated(g: Grid, a: Block) {
    forall n :: InGrid(g, n) && Adjacent(a, n) ==> n.colour != a.colour
  }

  lemma ReachableSelf(g: Grid, a: Block)
    requires InGrid(g, a)
    ensures Reachable(g, a, a)
  {
    assert IsPath(g, [a], a.colour);
  }

  /** One more same-coloured step extends reachability. */
  lemma ReachableStep(g: Grid, a: Block, b: Block, n: Block)
    requires Reachable(g, a, b)
    requires InGrid(g, n) && Adjacent(b, n) && n.colour == a.colour
    ensures Reachable(g, a, n)
  {
    var p: seq<Block> :| IsPath(g, p, a.colour) && p[0] == a && p[|p| - 1] == b;
    var q := p + [n];
    assert q[..|q| - 1] == p;
    assert IsPath(g, q, a.colour);
    assert q[0] == a && q[|q| - 1] == n;
  }

  /** Reachable blocks lie in the grid and have the colour of the start. */
  lemma ReachableInGrid(g: Grid, a: Block, b: Block)
    requires Reachable(g, a, b)
    ensures InGrid(g, b) && b.colour == a.colour
  {
    var p: seq<Block> :| IsPath(g, p, a.colour) && p[0] == a && p[|p| - 1] == b;
  }

  /**
    A set that contains `a` and is closed under same-coloured steps contains
    the end of every same-coloured path that starts at `a`.
   */
  lemma {:induction false} ClosedSetContainsPath(g: Grid, a: Block, s: set<Block>, p: seq<Block>)
    requires a in s
    requires forall b, n :: b in s && InGrid(g, n) && Adjacent(b, n) && n.colour == a.colour ==> n in s
    requires IsPath(g, p, a.colour) && p[0] == a
    ensures p[|p| - 1] in s
    decreases |p|
  {
    if |p| > 1 {
      var q := p[..|p| - 1];
      assert q[0] == a;
      ClosedSetContainsPath(g, a, s, q);
      assert q[|q| - 1] == p[|p| - 2];
    }
  }

  lemma ClosedSetContainsReachable(g: Grid, a: Block, s: set<Block>, b: Block)
    requires a in s
    requires forall b, n :: b in s && InGrid(g, n) && Adjacent(b, n) && n.colour == a.colour ==> n in s
    requires Reachable(g, a, b)
    ensures b in s
  {
    var p: seq<Block> :| IsPath(g, p, a.colour) && p[0] == a && p[|p| - 1] == b;
    ClosedSetContainsPath(g, a, s, p);
  }

  /** A block none of whose neighbours shares its colour reaches only itself. */
  lemma IsolatedReachesOnlyItself(g: Grid, a: Block, b: Block)
    requires Isolated(g, a)
    requires Reachable(g, a, b)
    ensures b == a
  {
    ClosedSetContainsReachable(g, a, {a}, b);
  }

  /** A sequence without repetitions has as many elements as its set of elements. */
  lemma {:induction false} DistinctElements(s: seq<Block>)
    requires forall i, j :: 0 <= i < j < |s| ==> s[i] != s[j]
    ensures |set b | b in s| == |s|
  {
    if s != [] {
      DistinctElements(s[1..]);
      assert (set b | b in s) == (set b | b in s[1..]) + {s[0]};
      assert s[0] !in s[1..];
    }
  }

  /** The blocks of `adjacent` not yet in `checked`, in their original order. */
  function Unchecked(adjacent: seq<Block>, checked: set<Block>): (r: seq<Block>)
    ensures |r| <= |adjacent|
    ensures forall i :: 0 <= i < |r| ==> r[i] !in checked
  {
    if adjacent == [] then []
    else if adjacent[0] in checked then Unchecked(adjacent[1..], checked)
    else [adjacent[0]] + Unchecked(adjacent[1..], checked)
  }

  /** `Unchecked` keeps exactly the candidates not yet checked. */
  lemma {:induction false} UncheckedMembers(adjacent: seq<Block>, checked: set<Block>)
    ensures forall n :: n in Unchecked(adjacent, checked) <==> n in adjacent && n !in checked
  {
    if adjacent != [] {
      UncheckedMembers(adjacent[1..], checked);
      assert adjacent == [adjacent[0]] + adjacent[1..];
    }
  }

  /**
    State of the flood fill between two iterations of its loop: the FIFO
    queue of blocks still to look at, the blocks already looked at, and
    the hits found so far.
   */
  datatype Fill = Fill(toCheck: seq<Block>, checked: set<Block>, hits: seq<Block>)

  /**
    One iteration of the loop in `getConnectedBlocks`: dequeue the head; a
    head already checked is dropped; otherwise it is marked checked and, if
    it has the origin's colour, becomes a hit and queues its unchecked
    neighbours.
   */
  function Visit(g: Grid, origin: Block, s: Fill): (t: Fill)
    requires WellFormed(g)
    requires s.toCheck != [] && InGrid(g, s.toCheck[0])
    ensures s.toCheck[0] in s.checked ==> t == Fill(s.toCheck[1..], s.checked, s.hits)
    ensures s.toCheck[0] !in s.checked ==> t.checked == s.checked + {s.toCheck[0]}
    ensures |t.toCheck| >= |s.toCheck| - 1 && t.toCheck[..|s.toCheck| - 1] == s.toCheck[1..]
    ensures t.hits == s.hits + (if s.toCheck[0] !in s.checked && s.toCheck[0].colour == origin.colour
                                then [s.toCheck[0]] else [])
    ensures forall n :: n in t.toCheck[|s.toCheck| - 1..] <==>
              && s.toCheck[0] !in s.checked && s.toCheck[0].colour == origin.colour
              && InGrid(g, n) && Adjacent(s.toCheck[0], n) && n !in s.checked
  {
    var current := s.toCheck[0];
    var rest := s.toCheck[1..];
    UncheckedMembers(GetAdjacentBlocks(g, current), s.checked);
    if current in s.checked then
      Fill(rest, s.checked, s.hits)
    else if current.colour == origin.colour then
      Fill(rest + Unchecked(GetAdjacentBlocks(g, current), s.checked), s.checked + {current}, s.hits + [current])
    else
      Fill(rest, s.checked + {current}, s.hits)
  }

  /**
    One iteration of the loop exactly as `getConnectedBlocks` writes it: the
    head is never compared with `checked`, so a block queued twice before
    its first visit is visited, and if it has the origin's colour hit,
    twice.
   */
  function VisitAsWritten(g: Grid, origin: Block, s: Fill): (t: Fill)
    requires WellFormed(g)
    requires s.toCheck != [] && InGrid(g, s.toCheck[0])
    ensures t.checked == s.checked + {s.toCheck[0]}
    ensures t.hits == s.hits + (if s.toCheck[0].colour == origin.colour then [s.toCheck[0]] else [])
    ensures |t.toCheck| >= |s.toCheck| - 1 && t.toCheck[..|s.toCheck| - 1] == s.toCheck[1..]
  {
    var current := s.toCheck[0];
    var rest := s.toCheck[1..];
    if current.colour == origin.colour then
      Fill(rest + Unchecked(GetAdjacentBlocks(g, current), s.checked), s.checked + {current}, s.hits + [current])
    else
      Fill(rest, s.checked + {current}, s.hits)
  }

  /**
    What one iteration as written does: the head is marked checked whether
    or not it was checked before, becomes a hit whenever it has the origin's
    colour, and in that case queues its grid neighbours not yet checked.
   */
  lemma VisitAsWrittenEffect(g: Grid, origin: Block, s: Fill)
    requires WellFormed(g)
    requires s.toCheck != [] && InGrid(g, s.toCheck[0])
    ensures var t := VisitAsWritten(g, origin, s);
      && t.checked == s.checked + {s.toCheck[0]}
      && |t.toCheck| >= |s.toCheck| - 1 && t.toCheck[..|s.toCheck| - 1] == s.toCheck[1..]
      && t.hits == s.hits + (if s.toCheck[0].colour == origin.colour then [s.toCheck[0]] else [])
      && forall n :: n in t.toCheck[|s.toCheck| - 1..] <==>
           && s.toCheck[0].colour == origin.colour
           && InGrid(g, n) && Adjacent(s.toCheck[0], n) && n !in s.checked
  {
    UncheckedMembers(GetAdjacentBlocks(g, s.toCheck[0]), s.checked);
  }

  /** A grid whose every block is red and visible, as construction yields when every draw picks red. */
  function AllRed(): (g: Grid)
    ensures WellFormed(g)
    ensures forall x, y :: 0 <= x < MaxX && 0 <= y < MaxY ==> g[x][y].colour == Red
  {
    seq(MaxX, x => seq(MaxY, y => Block(Pos(x, y), x, y, Red, false)))
  }

  /** A visit as written queues only grid blocks when the queue held only grid blocks. */
  lemma VisitAsWrittenKeepsQueue(g: Grid, origin: Block, s: Fill)
    requires WellFormed(g)
    requires s.toCheck != [] && forall q :: q in s.toCheck ==> InGrid(g, q)
    ensures forall q :: q in VisitAsWritten(g, origin, s).toCheck ==> InGrid(g, q)
  {
    assert s.toCheck[0] in s.toCheck;
    VisitAsWrittenEffect(g, origin, s);
    var next := VisitAsWritten(g, origin, s);
    forall q | q in next.toCheck
      ensures InGrid(g, q)
    {
      var k :| 0 <= k < |next.toCheck| && next.toCheck[k] == q;
      if k < |s.toCheck| - 1 {
        assert q == s.toCheck[1..][k];
      } else {
        assert q in next.toCheck[|s.toCheck| - 1..];
      }
    }
  }

  /**
    Up to `fuel` iterations of the loop as written, stopping early when the
    queue runs dry. Hits are only ever appended to.
   */
  function RunAsWritten(g: Grid, origin: Block, s: Fill, fuel: nat): (t: Fill)
    requires WellFormed(g)
    requires forall q :: q in s.toCheck ==> InGrid(g, q)
    ensures forall q :: q in t.toCheck ==> InGrid(g, q)
    ensures |s.hits| <= |t.hits| && t.hits[..|s.hits|] == s.hits
    decreases fuel
  {
    if fuel == 0 || s.toCheck == [] then s
    else
      VisitAsWrittenKeepsQueue(g, origin, s);
      RunAsWritten(g, origin, VisitAsWritten(g, origin, s), fuel - 1)
  }

  /** The red block created at (x, y). */
  function RedAt(x: int, y: int): Block {
    Block(Pos(x, y), x, y, Red, false)
  }

  lemma RedInGrid(x: int, y: int)
    requires 0 <= x < MaxX && 0 <= y < MaxY
    ensures AllRed()[x][y] == RedAt(x, y)
    ensures InGrid(AllRed(), RedAt(x, y))
  {
  }

  /** The neighbours of a red block in the all-red grid, in lookup order. */
  lemma AllRedNeighbours(x: int, y: int)
    requires 0 <= x < MaxX && 0 <= y < MaxY
    ensures GetAdjacentBlocks(AllRed(), RedAt(x, y))
         == (if x > 0 then [RedAt(x - 1, y)] else [])
            + (if x < MaxX - 1 then [RedAt(x + 1, y)] else [])
            + (if y > 0 then [RedAt(x, y - 1)] else [])
            + (if y < MaxY - 1 then [RedAt(x, y + 1)] else [])
  {
    var g := AllRed();
    assert x > 0 ==> g[x - 1][y] == RedAt(x - 1, y);
    assert x < MaxX - 1 ==> g[x + 1][y] == RedAt(x + 1, y);
    assert y > 0 ==> g[x][y - 1] == RedAt(x, y - 1);
    assert y < MaxY - 1 ==> g[x][y + 1] == RedAt(x, y + 1);
  }

  lemma UncheckedCons(a: Block, rest: seq<Block>, checked: set<Block>)
    ensures Unchecked([a] + rest, checked) == (if a in checked then [] else [a]) + Unchecked(rest, checked)
  {
    assert ([a] + rest)[1..] == rest;
  }

  /** `Unchecked` on a list of up to three candidates, written out. */
  lemma UncheckedOfThree(a: Block, b: Block, c: seq<Block>, checked: set<Block>)
    requires |c| <= 1
    ensures Unchecked([a, b] + c, checked)
         == (if a in checked then [] else [a]) + (if b in checked then [] else [b])
            + (if c != [] && c[0] !in checked then c else [])
  {
    UncheckedCons(a, [b] + c, checked);
    UncheckedCons(b, c, checked);
    if c != [] {
      UncheckedCons(c[0], [], checked);
      assert c == [c[0]] + [];
    }
  }

  lemma NeighboursOfCorner()
    ensures GetAdjacentBlocks(AllRed(), RedAt(0, 0)) == [RedAt(1, 0), RedAt(0, 1)] + []
  {
    AllRedNeighbours(0, 0);
  }

  lemma NeighboursOfBottomEdge()
    ensures GetAdjacentBlocks(AllRed(), RedAt(1, 0)) == [RedAt(0, 0), RedAt(2, 0)] + [RedAt(1, 1)]
  {
    AllRedNeighbours(1, 0);
  }

  lemma NeighboursOfLeftEdge()
    ensures GetAdjacentBlocks(AllRed(), RedAt(0, 1)) == [RedAt(1, 1), RedAt(0, 0)] + [RedAt(0, 2)]
  {
    AllRedNeighbours(0, 1);
  }

  lemma AsWrittenStep1()
    ensures VisitAsWritten(AllRed(), RedAt(0, 0), Fill([RedAt(0, 0)], {}, []))
         == Fill([RedAt(1, 0), RedAt(0, 1)], {RedAt(0, 0)}, [RedAt(0, 0)])
  {
    RedInGrid(0, 0);
    NeighboursOfCorner();
    UncheckedOfThree(RedAt(1, 0), RedAt(0, 1), [], {});
  }

  lemma AsWrittenStep2()
    ensures VisitAsWritten(AllRed(), RedAt(0, 0), Fill([RedAt(1, 0), RedAt(0, 1)], {RedAt(0, 0)}, [RedAt(0, 0)]))
         == Fill([RedAt(0, 1), RedAt(2, 0), RedAt(1, 1)], {RedAt(0, 0), RedAt(1, 0)}, [RedAt(0, 0), RedAt(1, 0)])
  {
    RedInGrid(1, 0);
    NeighboursOfBottomEdge();
    UncheckedOfThree(RedAt(0, 0), RedAt(2, 0), [RedAt(1, 1)], {RedAt(0, 0)});
  }

  lemma AsWrittenStep3()
    ensures VisitAsWritten(AllRed(), RedAt(0, 0),
              Fill([RedAt(0, 1), RedAt(2, 0), RedAt(1, 1)], {RedAt(0, 0), RedAt(1, 0)}, [RedAt(0, 0), RedAt(1, 0)]))
         == Fill([RedAt(2, 0), RedAt(1, 1), RedAt(1, 1), RedAt(0, 2)],
                 {RedAt(0, 0), RedAt(1, 0), RedAt(0, 1)},
                 [RedAt(0, 0), RedAt(1, 0), RedAt(0, 1)])
  {
    RedInGrid(0, 1);
    NeighboursOfLeftEdge();
    UncheckedOfThree(RedAt(1, 1), RedAt(0, 0), [RedAt(0, 2)], {RedAt(0, 0), RedAt(1, 0)});
  }

  /** The fourth iteration visits (2, 0) and leaves both copies of (1, 1) at the head of the queue. */
  lemma AsWrittenStep4()
    ensures
      var t := VisitAsWritten(AllRed(), RedAt(0, 0),
                 Fill([RedAt(2, 0), RedAt(1, 1), RedAt(1, 1), RedAt(0, 2)],
                      {RedAt(0, 0), RedAt(1, 0), RedAt(0, 1)},
                      [RedAt(0, 0), RedAt(1, 0), RedAt(0, 1)]));
      && |t.toCheck| >= 2 && t.toCheck[0] == t.toCheck[1] == RedAt(1, 1)
      && t.hits == [RedAt(0, 0), RedAt(1, 0), RedAt(0, 1), RedAt(2, 0)]
  {
    RedInGrid(2, 0);
  }

  /** One more iteration of a run that has fuel left and a non-empty queue. */
  lemma RunAsWrittenUnfold(g: Grid, origin: Block, s: Fill, fuel: nat)
    requires WellFormed(g)
    requires forall q :: q in s.toCheck ==> InGrid(g, q)
    requires fuel > 0 && s.toCheck != []
    ensures forall q :: q in VisitAsWritten(g, origin, s).toCheck ==> InGrid(g, q)
    ensures RunAsWritten(g, origin, s, fuel) == RunAsWritten(g, origin, VisitAsWritten(g, origin, s), fuel - 1)
  {
    assert s.toCheck[0] in s.toCheck;
    VisitAsWrittenEffect(g, origin, s);
  }

  /** The state the trace below reaches after three iterations. */
  function TraceState3(): Fill {
    Fill([RedAt(2, 0), RedAt(1, 1), RedAt(1, 1), RedAt(0, 2)],
         {RedAt(0, 0), RedAt(1, 0), RedAt(0, 1)},
         [RedAt(0, 0), RedAt(1, 0), RedAt(0, 1)])
  }

  /** The first three iterations from the corner (0, 0) of the all-red grid. */
  lemma AsWrittenFirstThree(fuel: nat)
    requires fuel >= 3
    ensures RunAsWritten(AllRed(), RedAt(0, 0), Fill([RedAt(0, 0)], {}, []), fuel)
         == RunAsWritten(AllRed(), RedAt(0, 0), TraceState3(), fuel - 3)
  {
    var g, o := AllRed(), RedAt(0, 0);
    RedInGrid(0, 0);
    RedInGrid(1, 0);
    RedInGrid(0, 1);
    RedInGrid(2, 0);
    RedInGrid(1, 1);
    RedInGrid(0, 2);
    AsWrittenStep1();
    AsWrittenStep2();
    AsWrittenStep3();
    RunAsWrittenUnfold(g, o, Fill([o], {}, []), fuel);
    RunAsWrittenUnfold(g, o, Fill([RedAt(1, 0), RedAt(0, 1)], {o}, [o]), fuel - 1);
    RunAsWrittenUnfold(g, o, Fill([RedAt(0, 1), RedAt(2, 0), RedAt(1, 1)], {o, RedAt(1, 0)}, [o, RedAt(1, 0)]),
                       fuel - 2);
  }

  /** From there, the fourth iteration leaves both copies of (1, 1) at the head of the queue. */
  lemma AsWrittenFourth(fuel: nat)
    requires fuel >= 1
    ensures var s4 := VisitAsWritten(AllRed(), RedAt(0, 0), TraceState3());
      && (forall q :: q in s4.toCheck ==> InGrid(AllRed(), q))
      && |s4.toCheck| >= 2 && s4.toCheck[0] == s4.toCheck[1] == RedAt(1, 1)
      && |s4.hits| == 4
      && RunAsWritten(AllRed(), RedAt(0, 0), TraceState3(), fuel)
         == RunAsWritten(AllRed(), RedAt(0, 0), s4, fuel - 1)
  {
    RedInGrid(2, 0);
    RedInGrid(1, 1);
    RedInGrid(0, 2);
    AsWrittenStep4();
    RunAsWrittenUnfold(AllRed(), RedAt(0, 0), TraceState3(), fuel);
  }

  /** What a visit does to the front of the queue and to the hits, without the newly queued blocks. */
  lemma VisitAsWrittenFront(g: Grid, origin: Block, s: Fill)
    requires WellFormed(g)
    requires s.toCheck != [] && InGrid(g, s.toCheck[0])
    ensures var t := VisitAsWritten(g, origin, s);
      && |t.toCheck| >= |s.toCheck| - 1
      && (forall k :: 1 <= k < |s.toCheck| ==> t.toCheck[k - 1] == s.toCheck[k])
      && t.hits == s.hits + (if s.toCheck[0].colour == origin.colour then [s.toCheck[0]] else [])
  {
  }

  /** A red block queued twice at the head is hit on each of the next two iterations. */
  lemma AsWrittenHeadTwice(s: Fill, fuel: nat)
    requires forall q :: q in s.toCheck ==> InGrid(AllRed(), q)
    requires |s.toCheck| >= 2 && s.toCheck[0] == s.toCheck[1] == RedAt(1, 1)
    requires fuel >= 2
    ensures var t := RunAsWritten(AllRed(), RedAt(0, 0), s, fuel);
      |t.hits| >= |s.hits| + 2 && t.hits[|s.hits|] == t.hits[|s.hits| + 1] == RedAt(1, 1)
  {
    var g, o := AllRed(), RedAt(0, 0);
    assert s.toCheck[0] in s.toCheck;
    VisitAsWrittenFront(g, o, s);
    RunAsWrittenUnfold(g, o, s, fuel);
    var s5 := VisitAsWritten(g, o, s);
    assert s5.hits == s.hits + [RedAt(1, 1)];
    assert s5.toCheck[0] == RedAt(1, 1);
    assert s5.toCheck[0] in s5.toCheck;
    VisitAsWrittenFront(g, o, s5);
    RunAsWrittenUnfold(g, o, s5, fuel - 1);
    var s6 := VisitAsWritten(g, o, s5);
    assert s6.hits == s.hits + [RedAt(1, 1), RedAt(1, 1)];
  }

  /**
    On an all-red grid, clicking the corner (0, 0), the loop as written
    queues block (1, 1) twice by its fourth iteration, once as the unchecked
    neighbour of (1, 0) and once as that of (0, 1). Both copies are red, so
    the fifth and the sixth iteration each append (1, 1) to the hits, and
    however long the loop then runs, its hits hold (1, 1) twice.
   */
  lemma AsWrittenHitsRepeat(fuel: nat)
    requires fuel >= 6
    ensures
      var t := RunAsWritten(AllRed(), RedAt(0, 0), Fill([RedAt(0, 0)], {}, []), fuel);
      |t.hits| >= 6 && t.hits[4] == t.hits[5] == RedAt(1, 1)
  {
    var g, o := AllRed(), RedAt(0, 0);
    AsWrittenFirstThree(fuel);
    AsWrittenFourth(fuel - 3);
    var s4 := VisitAsWritten(g, o, TraceState3());
    AsWrittenHeadTwice(s4, fuel - 4);
    var t := RunAsWritten(g, o, s4, fuel - 4);
    assert |s4.hits| == 4 && t.hits[4] == t.hits[5] == RedAt(1, 1);
  }

  /** Every queued block is in the grid, and is the origin or a neighbour of a hit. */
  ghost predicate QueueInGrid(g: Grid, origin: Block, s: Fill) {
    forall q :: q in s.toCheck ==> InGrid(g, q) && (q == origin || exists h :: h in s.hits && Adjacent(h, q))
  }

  /** The hits are exactly the checked blocks of the origin's colour, each listed once. */
  ghost predicate HitsAreChecked(g: Grid, origin: Block, s: Fill) {
    && (forall b :: b in s.checked ==> InGrid(g, b))
    && (forall b :: b in s.hits <==> b in s.checked && b.colour == origin.colour)
    && (forall i, j :: 0 <= i < j < |s.hits| ==> s.hits[i] != s.hits[j])
  }

  /** Every hit is reachable from the origin. */
  ghost predicate HitsReachable(g: Grid, origin: Block, s: Fill) {
    forall b :: b in s.hits ==> Reachable(g, origin, b)
  }

  /** The search starts at the origin: it is queued first and becomes the first hit. */
  ghost predicate StartsAtOrigin(origin: Block, s: Fill) {
    && (s.checked == {} ==> s.toCheck == [origin])
    && (s.checked != {} ==> |s.hits| > 0 && s.hits[0] == origin)
  }

  /** Each same-coloured checked block has all its grid neighbours checked or queued. */
  ghost predicate Frontier(g: Grid, origin: Block, s: Fill) {
    forall b, n :: b in s.checked && b.colour == origin.colour && InGrid(g, n) && Adjacent(b, n) ==>
      n in s.checked || n in s.toCheck
  }

  ghost predicate FillInvariant(g: Grid, origin: Block, s: Fill) {
    && QueueInGrid(g, origin, s)
    && HitsAreChecked(g, origin, s)
    && HitsReachable(g, origin, s)
    && StartsAtOrigin(origin, s)
    && Frontier(g, origin, s)
  }

  lemma VisitKeepsQueueInGrid(g: Grid, origin: Block, s: Fill)
    requires WellFormed(g) && s.toCheck != [] && InGrid(g, s.toCheck[0]) && QueueInGrid(g, origin, s)
    ensures QueueInGrid(g, origin, Visit(g, origin, s))
  {
    var current := s.toCheck[0];
    assert current in s.toCheck;
    var t := Visit(g, origin, s);
    forall q | q in t.toCheck
      ensures InGrid(g, q) && (q == origin || exists h :: h in t.hits && Adjacent(h, q))
    {
      var k :| 0 <= k < |t.toCheck| && t.toCheck[k] == q;
      if k < |s.toCheck| - 1 {
        assert q == s.toCheck[1..][k] && q in s.toCheck;
        if q != origin {
          var h :| h in s.hits && Adjacent(h, q);
          assert h in t.hits;
        }
      } else {
        assert q in t.toCheck[|s.toCheck| - 1..];
        assert current in t.hits;
      }
    }
  }

  lemma VisitKeepsHitsAreChecked(g: Grid, origin: Block, s: Fill)
    requires WellFormed(g) && s.toCheck != [] && InGrid(g, s.toCheck[0]) && QueueInGrid(g, origin, s) && HitsAreChecked(g, origin, s)
    ensures HitsAreChecked(g, origin, Visit(g, origin, s))
  {
    assert s.toCheck[0] in s.toCheck;
  }

  lemma VisitKeepsHitsReachable(g: Grid, origin: Block, s: Fill)
    requires WellFormed(g) && s.toCheck != [] && InGrid(g, s.toCheck[0]) && QueueInGrid(g, origin, s) && HitsReachable(g, origin, s)
    ensures HitsReachable(g, origin, Visit(g, origin, s))
  {
    var current := s.toCheck[0];
    assert current in s.toCheck;
    if current !in s.checked && current.colour == origin.colour {
      if current == origin {
        ReachableSelf(g, origin);
      } else {
        var h :| h in s.hits && Adjacent(h, current);
        ReachableStep(g, origin, h, current);
      }
    }
  }

  lemma VisitKeepsFrontier(g: Grid, origin: Block, s: Fill)
    requires WellFormed(g) && s.toCheck != [] && InGrid(g, s.toCheck[0]) && QueueInGrid(g, origin, s) && Frontier(g, origin, s)
    ensures Frontier(g, origin, Visit(g, origin, s))
  {
    var current := s.toCheck[0];
    assert current in s.toCheck;
    var t := Visit(g, origin, s);
    forall b, n | b in t.checked && b.colour == origin.colour && InGrid(g, n) && Adjacent(b, n)
      ensures n in t.checked || n in t.toCheck
    {
      if b == current && current !in s.checked {
        if n !in s.checked {
          assert n in t.toCheck[|s.toCheck| - 1..];
        }
      } else if n !in s.checked && n != current {
        var k :| 0 <= k < |s.toCheck| && s.toCheck[k] == n;
        assert n == t.toCheck[..|s.toCheck| - 1][k - 1];
      }
    }
  }

  lemma VisitKeepsInvariant(g: Grid, origin: Block, s: Fill)
    requires WellFormed(g) && s.toCheck != [] && InGrid(g, s.toCheck[0]) && FillInvariant(g, origin, s)
    ensures FillInvariant(g, origin, Visit(g, origin, s))
  {
    VisitKeepsQueueInGrid(g, origin, s);
    VisitKeepsHitsAreChecked(g, origin, s);
    VisitKeepsHitsReachable(g, origin, s);
    VisitKeepsFrontier(g, origin, s);
  }

  /**
    `getConnectedBlocks`: a breadth-first flood fill from `origin` with a
    FIFO queue `toCheck` and a `checked` set. A dequeued block of the
    origin's colour becomes a hit and queues its unchecked neighbours;
    any other block is only marked checked. The result starts with the
    origin, holds each block once, and is exactly the origin's connected
    region; an origin without a same-coloured neighbour yields `[origin]`.
   */
  method GetConnectedBlocks(g: Grid, origin: Block) returns (hits: seq<Block>)
    requires WellFormed(g)
    requires InGrid(g, origin)
    ensures |hits| > 0 && hits[0] == origin
    ensures forall b :: b in hits <==> Reachable(g, origin, b)
    ensures forall b :: b in hits ==> InGrid(g, b) && b.colour == origin.colour
    ensures forall i, j :: 0 <= i < j < |hits| ==> hits[i] != hits[j]
    ensures Isolated(g, origin) ==> hits == [origin]
  {
    var s := Fill([origin], {}, []);
    while s.toCheck != []
      invariant FillInvariant(g, origin, s)
      decreases AllBlocks(g) - s.checked, |s.toCheck|
    {
      assert s.toCheck[0] in s.toCheck;
      InGridIsInAllBlocks(g, s.toCheck[0]);
      VisitKeepsInvariant(g, origin, s);
      s := Visit(g, origin, s);
    }
    hits := s.hits;
    var found := set b | b in hits;
    forall b | Reachable(g, origin, b)
      ensures b in hits
    {
      ClosedSetContainsReachable(g, origin, found, b);
    }
    forall b | b in hits
      ensures InGrid(g, b) && b.colour == origin.colour
    {
      ReachableInGrid(g, origin, b);
    }
    if Isolated(g, origin) {
      forall b | b in hits
        ensures b == origin
      {
        IsolatedReachesOnlyItself(g, origin, b);
      }
      assert found == {origin};
      DistinctElements(hits);
    }
  }
}
