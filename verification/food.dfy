/**
  Food placement (`generateFood`).

  The source draws random cells until one is off the snake. The model replaces
  the random draws by a parameter `pick`: the free cells of the field are
  enumerated row by row, and `pick` selects one of them. Every free cell is
  selected by some `pick`, and nothing else is, so the set of possible outcomes
  is exactly that of the retry loop. When the field has no free cell the retry
  loop never ends; the model makes a free cell a precondition.
 */
module Food {
  import opened Geometry

  /** The free cells of row `y` from column `x` on, left to right. */
  function RowFree(g: Grid, snake: seq<Cell>, y: int, x: nat): (r: seq<Cell>)
    requires x <= g.width
    ensures forall c :: c in r <==> c.y == y && x <= c.x < g.width && c !in snake
    decreases g.width - x
  {
    if x == g.width then []
    else if Cell(x, y) in snake then RowFree(g, snake, y, x + 1)
    else [Cell(x, y)] + RowFree(g, snake, y, x + 1)
  }

  /** The free cells of rows `y` to `height - 1`, top to bottom. */
  function FreeFrom(g: Grid, snake: seq<Cell>, y: nat): (r: seq<Cell>)
    requires y <= g.height
    ensures forall c :: c in r <==> y <= c.y && InBounds(g, c) && c !in snake
    decreases g.height - y
  {
    if y == g.height then []
    else RowFree(g, snake, y, 0) + FreeFrom(g, snake, y + 1)
  }

  /** Every cell of the field that the snake does not occupy. */
  function FreeCells(g: Grid, snake: seq<Cell>): (r: seq<Cell>)
    ensures forall c :: c in r <==> InBounds(g, c) && c !in snake
  {
    FreeFrom(g, snake, 0)
  }

  /** True iff some cell of the field is not occupied by `snake`: the
      condition under which the retry loop of `generateFood` terminates. */
  ghost predicate HasFreeCell(g: Grid, snake: seq<Cell>) {
    exists c :: InBounds(g, c) && c !in snake
  }

  lemma FreeCellsNonEmpty(g: Grid, snake: seq<Cell>)
    requires HasFreeCell(g, snake)
    ensures |FreeCells(g, snake)| > 0
  {
    var c :| InBounds(g, c) && c !in snake;
    assert c in FreeCells(g, snake);
  }

  /** `generateFood`: a cell on the field that the snake does not occupy,
      chosen by the random input `pick`. */
  function GenerateFood(g: Grid, snake: seq<Cell>, pick: nat): (f: Cell)
    requires HasFreeCell(g, snake)
    ensures InBounds(g, f)
    ensures f !in snake
  {
    FreeCellsNonEmpty(g, snake);
    var free := FreeCells(g, snake);
    free[pick % |free|]
  }

  /** Every free cell is a possible outcome of `generateFood`, so the model
      does not narrow the random choice of the source. */
  lemma GenerateFoodCoversFreeCells(g: Grid, snake: seq<Cell>, c: Cell)
    requires InBounds(g, c) && c !in snake
    ensures HasFreeCell(g, snake)
    ensures exists pick: nat :: GenerateFood(g, snake, pick) == c
  {
    var free := FreeCells(g, snake);
    assert c in free;
    var i :| 0 <= i < |free| && free[i] == c;
    assert i % |free| == i;
    assert GenerateFood(g, snake, i) == free[i];
  }

  /** A free cell exists exactly when `GenerateFood` has an outcome, and its
      outcomes are exactly the free cells. */
  lemma GenerateFoodOutcomes(g: Grid, snake: seq<Cell>, c: Cell)
    requires HasFreeCell(g, snake)
    ensures (exists pick: nat :: GenerateFood(g, snake, pick) == c) <==> InBounds(g, c) && c !in snake
  {
    if InBounds(g, c) && c !in snake {
      GenerateFoodCoversFreeCells(g, snake, c);
    }
  }
}
