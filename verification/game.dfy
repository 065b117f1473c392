/**
  The game state and its transitions, as in the event handlers of the page
  script: `initGame`, `startGame`, `togglePause`, the `keydown` handler, the
  difficulty `change` handler, `moveSnake`, `checkGameOver` and `gameLoop`.

  Every transition is a pure function from state to state; the random input
  of `generateFood` is the parameter `pick` (see module Food).
 */
module SnakeGame {
  import opened Geometry
  import opened Food

  /** The entries of the difficulty selector. */
  datatype Difficulty = Easy | Medium | Hard

  /** The keys the `keydown` handler distinguishes; any other key is `OtherKey`. */
  datatype Key = ArrowUp | ArrowDown | ArrowLeft | ArrowRight | Space | OtherKey

  /** The script's mutable game variables and the difficulty selector's
      current value. The snake is head first. */
  datatype State = State(
    snake: seq<Cell>,
    food: Cell,
    direction: Direction,
    nextDirection: Direction,
    score: int,
    running: bool,
    paused: bool,
    speed: nat,
    difficulty: Difficulty)

  /** Points awarded per food eaten. */
  const FoodScore: int := 10

  /** The snake `initGame` lays out: head at (5, 10), heading right. */
  function InitialSnake(): (r: seq<Cell>)
    ensures |r| == 3 && Distinct(r)
    ensures r[0] == Cell(5, 10)
    ensures forall i :: 1 <= i < |r| ==> r[i - 1] == NextHead(r[i], Right)
  {
    [Cell(5, 10), Cell(4, 10), Cell(3, 10)]
  }

  /** The tick interval in milliseconds for each difficulty (the `speeds` table). */
  function Speed(d: Difficulty): (ms: nat)
    ensures d == Easy ==> ms == 200
    ensures d == Medium ==> ms == 150
    ensures d == Hard ==> ms == 100
  {
    match d
    case Easy => 200
    case Medium => 150
    case Hard => 100
  }

  /** The position of a difficulty from easiest to hardest. */
  function Rank(d: Difficulty): nat {
    match d
    case Easy => 0
    case Medium => 1
    case Hard => 2
  }

  /** A harder setting always ticks faster. */
  lemma HarderIsFaster(d1: Difficulty, d2: Difficulty)
    ensures Rank(d1) < Rank(d2) <==> Speed(d2) < Speed(d1)
  {
  }

  /** `initGame`: lay out the snake, place food off it, reset score and
      headings and take the tick interval from the selected difficulty. The
      run flags and the selector are left as they are. */
  function InitGame(g: Grid, s: State, pick: nat): (r: State)
    requires HasFreeCell(g, InitialSnake())
    ensures r.snake == InitialSnake() && r.score == 0
    ensures r.direction == Right && r.nextDirection == Right
    ensures InBounds(g, r.food) && r.food !in r.snake
    ensures r.speed == Speed(s.difficulty) && r.difficulty == s.difficulty
    ensures r.running == s.running && r.paused == s.paused
  {
    var snake := InitialSnake();
    s.(snake := snake,
       food := GenerateFood(g, snake, pick),
       score := 0,
       direction := Right,
       nextDirection := Right,
       speed := Speed(s.difficulty))
  }

  /** The state right after the page loads: the declared initial values of the
      game variables, the selector's initial value `difficulty`, then `initGame`. */
  function PageLoad(g: Grid, difficulty: Difficulty, pick: nat): (r: State)
    requires HasFreeCell(g, InitialSnake())
    ensures !r.running && !r.paused
    ensures r.snake == InitialSnake() && r.score == 0
    ensures r.direction == Right && r.nextDirection == Right
    ensures InBounds(g, r.food) && r.food !in r.snake
    ensures r.difficulty == difficulty && r.speed == Speed(difficulty)
  {
    var declared := State([], Cell(0, 0), Right, Right, 0, false, false, 150, difficulty);
    InitGame(g, declared, pick)
  }

  /** `startGame`: ignored while a game runs; otherwise a fresh, running,
      unpaused game. */
  function StartGame(g: Grid, s: State, pick: nat): (r: State)
    requires HasFreeCell(g, InitialSnake())
    ensures s.running ==> r == s
    ensures !s.running ==> r.running && !r.paused
    ensures !s.running ==> r.snake == InitialSnake() && r.score == 0
    ensures !s.running ==> r.direction == Right && r.nextDirection == Right
    ensures !s.running ==> InBounds(g, r.food) && r.food !in r.snake
    ensures !s.running ==> r.speed == Speed(s.difficulty) && r.difficulty == s.difficulty
  {
    if s.running then s
    else InitGame(g, s, pick).(running := true, paused := false)
  }

  /** `togglePause`: flips the pause flag exactly when a game runs, and
      changes nothing else. */
  function TogglePause(s: State): (r: State)
    ensures r.paused != s.paused <==> s.running
    ensures r == s.(paused := r.paused)
  {
    if !s.running then s
    else s.(paused := !s.paused)
  }

  /** The arrow-key rule: the pending heading becomes `d` unless `d` is the
      reverse of the heading in force. */
  function Steer(s: State, d: Direction): (r: State)
    ensures r == s.(nextDirection := r.nextDirection)
    ensures r.nextDirection == d <==> d != Opposite(s.direction) || s.nextDirection == d
    ensures r.nextDirection != d ==> r.nextDirection == s.nextDirection
  {
    if s.direction != Opposite(d) then s.(nextDirection := d) else s
  }

  /** The heading an arrow key asks for, if `k` is an arrow key. */
  function ArrowHeading(k: Key): (d: Direction)
    requires k != Space && k != OtherKey
  {
    match k
    case ArrowUp => Up
    case ArrowDown => Down
    case ArrowLeft => Left
    case ArrowRight => Right
  }

  /** The `keydown` handler. */
  function KeyDown(s: State, k: Key): (r: State)
    ensures k == OtherKey ==> r == s
    ensures k == Space ==> r == TogglePause(s)
    ensures k != Space ==> r == s.(nextDirection := r.nextDirection)
    ensures k != Space && k != OtherKey ==> r == Steer(s, ArrowHeading(k))
    ensures r.nextDirection != s.nextDirection ==> r.nextDirection != Opposite(s.direction)
  {
    match k
    case Space => if s.running then TogglePause(s) else s
    case OtherKey => s
    case _ => Steer(s, ArrowHeading(k))
  }

  /** The difficulty `change` handler: the selector takes the new value and
      the tick interval follows it; nothing else changes. */
  function ChangeDifficulty(s: State, difficulty: Difficulty): (r: State)
    ensures r.difficulty == difficulty && r.speed == Speed(difficulty)
    ensures r == s.(speed := r.speed, difficulty := r.difficulty)
  {
    s.(speed := Speed(difficulty), difficulty := difficulty)
  }

  /** The head `moveSnake` computes: one step in the pending heading. */
  function NewHead(s: State): Cell
    requires |s.snake| >= 1
  {
    NextHead(s.snake[0], s.nextDirection)
  }

  /** True iff the coming step lands on the food. */
  predicate Eats(s: State)
    requires |s.snake| >= 1
  {
    NewHead(s) == s.food
  }

  /** True iff, should the coming step eat, the grown snake leaves a cell for
      new food (otherwise the source's `generateFood` never returns). */
  ghost predicate FoodPlaceable(g: Grid, s: State)
    requires |s.snake| >= 1
  {
    Eats(s) ==> HasFreeCell(g, [NewHead(s)] + s.snake)
  }

  /** `moveSnake`: adopt the pending heading, prepend the new head, and
      either grow (food eaten: score up by 10 and new food) or drop the tail. */
  function MoveSnake(g: Grid, s: State, pick: nat): (r: State)
    requires |s.snake| >= 1
    requires FoodPlaceable(g, s)
    ensures r.direction == s.nextDirection && r.nextDirection == s.nextDirection
    ensures |r.snake| >= 1 && r.snake[0] == NextHead(s.snake[0], s.nextDirection)
    ensures r.snake[1..] <= s.snake
    ensures Eats(s) <==> |r.snake| == |s.snake| + 1
    ensures !Eats(s) ==> |r.snake| == |s.snake|
    ensures r.score == s.score + FoodScore * (|r.snake| - |s.snake|)
    ensures Eats(s) ==> InBounds(g, r.food) && r.food !in r.snake
    ensures !Eats(s) ==> r.food == s.food
    ensures r.running == s.running && r.paused == s.paused && r.speed == s.speed
    ensures r.difficulty == s.difficulty
  {
    var head := NewHead(s);
    var grown := [head] + s.snake;
    var moved := s.(direction := s.nextDirection);
    if head == s.food then
      moved.(snake := grown, score := s.score + FoodScore, food := GenerateFood(g, grown, pick))
    else
      moved.(snake := grown[..|grown| - 1])
  }

  /** The game-over condition: the head is off the field or on another segment. */
  predicate Collides(g: Grid, snake: seq<Cell>)
    requires |snake| >= 1
  {
    !InBounds(g, snake[0]) || snake[0] in snake[1..]
  }

  /** `checkGameOver`, with the source's scan over the segments behind the head. */
  method CheckGameOver(g: Grid, snake: seq<Cell>) returns (over: bool)
    requires |snake| >= 1
    ensures over <==> !InBounds(g, snake[0])
                      || exists i :: 1 <= i < |snake| && snake[i] == snake[0]
  {
    var head := snake[0];
    if head.x < 0 || head.x >= g.width || head.y < 0 || head.y >= g.height {
      return true;
    }
    var i := 1;
    while i < |snake|
      invariant 1 <= i <= |snake|
      invariant forall j :: 1 <= j < i ==> snake[j] != head
    {
      if head.x == snake[i].x && head.y == snake[i].y {
        return true;
      }
      i := i + 1;
    }
    return false;
  }

  /** The scan of `CheckGameOver` decides `Collides`. */
  lemma CollidesMeansHit(g: Grid, snake: seq<Cell>)
    requires |snake| >= 1
    ensures Collides(g, snake) <==> !InBounds(g, snake[0])
                                    || exists i :: 1 <= i < |snake| && snake[i] == snake[0]
  {
    if exists i :: 1 <= i < |snake| && snake[i] == snake[0] {
      var i :| 1 <= i < |snake| && snake[i] == snake[0];
      assert snake[1..][i - 1] == snake[0];
    }
  }

  /** What a tick may ask of the state: a snake to move and, if the step
      eats, room for new food. */
  ghost predicate CanTick(g: Grid, s: State) {
    |s.snake| >= 1 && (!s.paused ==> FoodPlaceable(g, s))
  }

  /** `gameLoop`: nothing while paused; otherwise move, and stop the game if
      the moved snake collides. */
  function GameLoop(g: Grid, s: State, pick: nat): (r: State)
    requires CanTick(g, s)
    ensures s.paused ==> r == s
    ensures !s.paused ==> r == MoveSnake(g, s, pick).(running := r.running)
    ensures !s.paused ==> (r.running <==> s.running && !Collides(g, r.snake))
  {
    if s.paused then s
    else
      var m := MoveSnake(g, s, pick);
      if Collides(g, m.snake) then m.(running := false) else m
  }
}
