/**
  Cells, directions and the playing field of the Snake game.

  A cell is an integer coordinate; the field is `width` by `height` cells
  with the origin in the top-left corner, so "up" decreases `y`.
 */
module Geometry {

  /** One grid cell. Coordinates are unbounded: the head may leave the field. */
  datatype Cell = Cell(x: int, y: int)

  /** The four headings the snake can take. */
  datatype Direction = Up | Down | Left | Right

  /** The playing field: `gridWidth` by `gridHeight` cells. */
  datatype Grid = Grid(width: nat, height: nat)

  /** True iff `c` lies on the field `[0, width) x [0, height)`. */
  predicate InBounds(g: Grid, c: Cell) {
    0 <= c.x < g.width && 0 <= c.y < g.height
  }

  /** True iff every cell of `cells` lies on the field. */
  predicate AllInBounds(g: Grid, cells: seq<Cell>) {
    forall i :: 0 <= i < |cells| ==> InBounds(g, cells[i])
  }

  /** True iff no cell occurs twice in `cells`. */
  predicate Distinct(cells: seq<Cell>) {
    forall i, j :: 0 <= i < j < |cells| ==> cells[i] != cells[j]
  }

  /** True iff `d` moves along the y axis. */
  predicate Vertical(d: Direction) {
    d == Up || d == Down
  }

  /** The heading that would turn the snake back onto itself: the other
      heading on the same axis. */
  function Opposite(d: Direction): (r: Direction)
    ensures r != d
    ensures Vertical(r) == Vertical(d)
  {
    match d
    case Up => Down
    case Down => Up
    case Left => Right
    case Right => Left
  }

  /** Turning back twice restores the heading. */
  lemma OppositeInvolutive(d: Direction)
    ensures Opposite(Opposite(d)) == d
  {
  }

  /** Manhattan distance between two cells. */
  function Distance(a: Cell, b: Cell): nat {
    (if a.x <= b.x then b.x - a.x else a.x - b.x) + (if a.y <= b.y then b.y - a.y else a.y - b.y)
  }

  /** The cell one step from `h` in heading `d`. */
  function NextHead(h: Cell, d: Direction): (r: Cell)
    ensures Distance(h, r) == 1
    ensures Vertical(d) <==> r.x == h.x
    ensures !Vertical(d) <==> r.y == h.y
    ensures d == Up ==> r.y < h.y
    ensures d == Down ==> r.y > h.y
    ensures d == Left ==> r.x < h.x
    ensures d == Right ==> r.x > h.x
  {
    match d
    case Up => Cell(h.x, h.y - 1)
    case Down => Cell(h.x, h.y + 1)
    case Left => Cell(h.x - 1, h.y)
    case Right => Cell(h.x + 1, h.y)
  }

  /** A step followed by a step in the opposite heading returns to the start:
      this is why a reversal would drive the head into the second segment. */
  lemma StepThenOppositeReturns(h: Cell, d: Direction)
    ensures NextHead(NextHead(h, d), Opposite(d)) == h
  {
  }
}
