/**
  When `generateFood` can return: a snake of distinct cells on the field
  leaves a free cell exactly when it is shorter than the field has cells.
  So the retry loop hangs only on the tick that would let the snake fill
  the whole field.
 */
module Capacity {
  import opened Geometry
  import opened Food
  import opened SnakeGame
  import opened Safety

  /** The cells `(0, y)` to `(w - 1, y)`. */
  ghost function RowCells(y: int, w: nat): (r: set<Cell>)
    ensures forall c :: c in r <==> c.y == y && 0 <= c.x < w
    ensures |r| == w
  {
    if w == 0 then {}
    else
      var front := RowCells(y, w - 1);
      assert Cell(w - 1, y) !in front;
      front + {Cell(w - 1, y)}
  }

  /** The cells of rows `0` to `h - 1`, each `w` cells wide. */
  ghost function FieldCells(w: nat, h: nat): (r: set<Cell>)
    ensures forall c :: c in r <==> 0 <= c.x < w && 0 <= c.y < h
    ensures |r| == w * h
  {
    if h == 0 then {}
    else
      var above := FieldCells(w, h - 1);
      var row := RowCells(h - 1, w);
      assert above !! row;
      assert |above + row| == w * (h - 1) + w;
      above + row
  }

  /** The set of cells a sequence visits; it has one element per entry when
      the entries are distinct. */
  ghost function CellSet(cells: seq<Cell>): (r: set<Cell>)
    ensures forall c :: c in r <==> c in cells
    ensures Distinct(cells) ==> |r| == |cells|
  {
    if cells == [] then {}
    else
      var rest := CellSet(cells[1..]);
      assert Distinct(cells) ==> Distinct(cells[1..]) && cells[0] !in cells[1..];
      {cells[0]} + rest
  }

  /** A subset leaves out as many elements as the sizes differ by. */
  lemma SubsetCard(a: set<Cell>, b: set<Cell>)
    requires a <= b
    ensures |b| == |a| + |b - a|
  {
    assert b == a + (b - a);
    assert a !! (b - a);
  }

  /** The cells of a snake on the field are cells of the field. */
  lemma BodyInField(g: Grid, snake: seq<Cell>)
    requires AllInBounds(g, snake)
    ensures CellSet(snake) <= FieldCells(g.width, g.height)
  {
    forall c | c in CellSet(snake)
      ensures c in FieldCells(g.width, g.height)
    {
      var i :| 0 <= i < |snake| && snake[i] == c;
      assert InBounds(g, snake[i]);
    }
  }

  /** A snake of distinct cells on the field leaves a free cell exactly when
      it is shorter than the number of cells of the field. */
  lemma FreeCellIffShort(g: Grid, snake: seq<Cell>)
    requires Distinct(snake) && AllInBounds(g, snake)
    ensures HasFreeCell(g, snake) <==> |snake| < g.width * g.height
  {
    var field := FieldCells(g.width, g.height);
    var body := CellSet(snake);
    BodyInField(g, snake);
    SubsetCard(body, field);
    assert |field| == |snake| + |field - body|;
    if HasFreeCell(g, snake) {
      var c :| InBounds(g, c) && c !in snake;
      assert c in field - body;
    }
    if |snake| < g.width * g.height {
      assert |field - body| > 0;
      var c :| c in field - body;
      assert InBounds(g, c) && c !in snake;
    }
  }

  /** In a running game, the tick that eats hangs in `generateFood` exactly
      when the grown snake would cover the whole field. */
  lemma EatingTickReturnsIffRoomLeft(g: Grid, s: State)
    requires Inv(g, s) && s.running && Eats(s)
    ensures FoodPlaceable(g, s) <==> |s.snake| + 1 < g.width * g.height
  {
    PrependKeepsSafe(g, NewHead(s), s.snake);
    FreeCellIffShort(g, [NewHead(s)] + s.snake);
  }
}
