/**
  The leaf entity of the grid engine: a coloured block occupying one cell.

  JavaScript blocks are mutable objects compared by reference. Here a block is
  an immutable value that carries an `id`, the coordinate it was created at,
  which stands in for object identity: the engine moves blocks around and
  flips their `hidden` flag, but never changes their `id`.
 */
module Blocks {

  /** The four colours of the palette, in the order the source lists them. */
  datatype Colour = Red | Green | Blue | Yellow

  /** The palette as an indexable sequence; a random draw picks an index into it. */
  const Colours: seq<Colour> := [Red, Green, Blue, Yellow]

  /** Number of columns (x ranges over 0 .. MaxX - 1). */
  const MaxX: int := 10

  /** Number of rows in each column (y ranges over 0 .. MaxY - 1). */
  const MaxY: int := 10

  /** A grid coordinate; used as the identity of a block. */
  datatype Pos = Pos(x: int, y: int)

  /** One block: its identity, its current coordinate, its colour and whether it was removed. */
  datatype Block = Block(id: Pos, x: int, y: int, colour: Colour, hidden: bool)

  /**
    Index into `Colours` chosen by one call of the random source, modelled as
    a real number `roll` in [0, 1): the floor of `roll * |Colours|`.
   */
  function PaletteIndex(roll: real): (i: int)
    requires 0.0 <= roll < 1.0
    ensures 0 <= i < |Colours|
    ensures i as real <= roll * 4.0 < (i + 1) as real
  {
    (roll * (|Colours| as real)).Floor
  }

  /**
    The block constructor: a fresh, visible block at (x, y) whose colour is
    the palette entry owning the quarter of [0, 1) that `roll` falls in.
   */
  function NewBlock(x: int, y: int, roll: real): (b: Block)
    requires 0.0 <= roll < 1.0
    ensures b.x == x && b.y == y && b.id == Pos(x, y)
    ensures !b.hidden
    ensures b.colour in Colours
    ensures forall i :: 0 <= i < |Colours| ==>
              (b.colour == Colours[i] <==> i as real <= roll * 4.0 < (i + 1) as real)
  {
    Block(Pos(x, y), x, y, Colours[PaletteIndex(roll)], false)
  }
}
