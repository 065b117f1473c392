/**
  The invariant of the game state and its preservation by every event the
  page reacts to: the start and pause buttons, key presses, the difficulty
  selector and the interval timer.
 */
module Safety {
  import opened Geometry
  import opened Food
  import opened SnakeGame

  /** The field holds the snake `initGame` lays out. */
  predicate Fits(g: Grid) {
    AllInBounds(g, InitialSnake())
  }

  /** The invariant of every state reachable from page load. */
  ghost predicate Inv(g: Grid, s: State) {
    && |s.snake| >= |InitialSnake()|
    && s.score == FoodScore * (|s.snake| - |InitialSnake()|)
    && s.nextDirection != Opposite(s.direction)
    && (s.paused ==> s.running)
    && s.speed == Speed(s.difficulty)
    && (s.running ==> Distinct(s.snake) && AllInBounds(g, s.snake))
    && (s.running ==> InBounds(g, s.food) && s.food !in s.snake)
  }

  /** The events the page reacts to. The interval timer fires only between
      `startGame` and game over, that is, while the game runs. */
  datatype Event =
    | StartClick(pick: nat)
    | PauseClick
    | KeyPress(key: Key)
    | DifficultyChange(difficulty: Difficulty)
    | TimerTick(pick: nat)

  /** True iff event `e` can occur in state `s` and its handler returns. */
  ghost predicate Enabled(g: Grid, s: State, e: Event) {
    match e
    case StartClick(_) => HasFreeCell(g, InitialSnake())
    case TimerTick(_) => s.running && CanTick(g, s)
    case _ => true
  }

  /** The state after the handler of `e` runs: the start button, the pause
      button, a key press, the difficulty selector or the interval timer. */
  function Next(g: Grid, s: State, e: Event): (r: State)
    requires Enabled(g, s, e)
    ensures !e.DifficultyChange? ==> r.difficulty == s.difficulty
    ensures e.PauseClick? ==> (r.paused != s.paused <==> s.running) && r == s.(paused := r.paused)
    ensures e.KeyPress? && e.key == Space ==> (r.paused != s.paused <==> s.running) && r == s.(paused := r.paused)
    ensures e.KeyPress? && e.key == OtherKey ==> r == s
    ensures e.KeyPress? && e.key != Space && e.key != OtherKey ==>
              r == s.(nextDirection := r.nextDirection)
              && (r.nextDirection == ArrowHeading(e.key) <==>
                    ArrowHeading(e.key) != Opposite(s.direction) || s.nextDirection == ArrowHeading(e.key))
              && (r.nextDirection != ArrowHeading(e.key) ==> r.nextDirection == s.nextDirection)
    ensures e.DifficultyChange? ==> r.difficulty == e.difficulty && r.speed == Speed(e.difficulty)
    ensures e.DifficultyChange? ==> r == s.(speed := r.speed, difficulty := r.difficulty)
    ensures e.StartClick? && s.running ==> r == s
    ensures e.StartClick? && !s.running ==> r.running && !r.paused && r.score == 0
    ensures e.StartClick? && !s.running ==> r.snake == InitialSnake() && r.speed == Speed(s.difficulty)
    ensures e.StartClick? && !s.running ==> r.direction == Right && r.nextDirection == Right
    ensures e.StartClick? && !s.running ==> InBounds(g, r.food) && r.food !in r.snake
    ensures e.TimerTick? && s.paused ==> r == s
    ensures e.TimerTick? && !s.paused ==> r.direction == s.nextDirection
    ensures e.TimerTick? && !s.paused ==>
              |r.snake| >= 1 && r.snake[0] == NextHead(s.snake[0], s.nextDirection)
              && (r.running <==> !Collides(g, r.snake))
    ensures e.TimerTick? && !s.paused ==> r == MoveSnake(g, s, e.pick).(running := r.running)
    ensures e.TimerTick? && !s.paused ==>
              && r.snake[1..] <= s.snake
              && (Eats(s) <==> |r.snake| == |s.snake| + 1)
              && (!Eats(s) ==> |r.snake| == |s.snake| && r.food == s.food)
              && r.score == s.score + FoodScore * (|r.snake| - |s.snake|)
              && (Eats(s) ==> InBounds(g, r.food) && r.food !in r.snake)
  {
    match e
    case StartClick(pick) => StartGame(g, s, pick)
    case PauseClick => TogglePause(s)
    case KeyPress(k) => KeyDown(s, k)
    case DifficultyChange(d) => ChangeDifficulty(s, d)
    case TimerTick(pick) => GameLoop(g, s, pick)
  }

  /** True iff `states` is the run produced by `events`, one state per event
      after the first. */
  ghost predicate IsRun(g: Grid, states: seq<State>, events: seq<Event>) {
    && |states| == |events| + 1
    && forall i :: 0 <= i < |events| ==>
         Enabled(g, states[i], events[i]) && states[i + 1] == Next(g, states[i], events[i])
  }

  /** A field that holds the initial snake has room for food beside it. */
  lemma FitsHasFreeCell(g: Grid)
    requires Fits(g)
    ensures HasFreeCell(g, InitialSnake())
  {
    assert InBounds(g, InitialSnake()[2]);
    assert InBounds(g, Cell(0, 0)) && Cell(0, 0) !in InitialSnake();
  }

  /** The page-load state satisfies the invariant. */
  lemma PageLoadInv(g: Grid, difficulty: Difficulty, pick: nat)
    requires HasFreeCell(g, InitialSnake())
    ensures Inv(g, PageLoad(g, difficulty, pick))
  {
  }

  /** A started game satisfies the invariant. */
  lemma StartPreservesInv(g: Grid, s: State, pick: nat)
    requires Fits(g) && Inv(g, s)
    ensures HasFreeCell(g, InitialSnake())
    ensures Inv(g, StartGame(g, s, pick))
  {
    FitsHasFreeCell(g);
  }

  /** Key presses keep the pending heading off the reverse of the heading in force. */
  lemma KeyDownPreservesInv(g: Grid, s: State, k: Key)
    requires Inv(g, s)
    ensures Inv(g, KeyDown(s, k))
  {
  }

  /** Dropping the tail keeps the remaining cells distinct and on the field. */
  lemma DropLastKeepsSafe(g: Grid, cells: seq<Cell>)
    requires |cells| >= 1 && Distinct(cells) && AllInBounds(g, cells)
    ensures Distinct(cells[..|cells| - 1]) && AllInBounds(g, cells[..|cells| - 1])
    ensures cells[|cells| - 1] !in cells[..|cells| - 1]
  {
  }

  /** Prepending a cell that is on the field and not yet present keeps the
      cells distinct and on the field. */
  lemma PrependKeepsSafe(g: Grid, h: Cell, cells: seq<Cell>)
    requires Distinct(cells) && AllInBounds(g, cells)
    requires InBounds(g, h) && h !in cells
    ensures Distinct([h] + cells) && AllInBounds(g, [h] + cells)
  {
    var t := [h] + cells;
    forall i, j | 0 <= i < j < |t|
      ensures t[i] != t[j]
    {
      if i == 0 {
        assert t[j] == cells[j - 1];
      } else {
        assert t[i] == cells[i - 1] && t[j] == cells[j - 1];
      }
    }
  }

  /** The snake after a tick is the new head on top of the old snake, with
      the tail dropped unless food was eaten. */
  lemma MovedSnakeShape(g: Grid, s: State, pick: nat)
    requires |s.snake| >= 1 && FoodPlaceable(g, s)
    ensures var m := MoveSnake(g, s, pick);
      && (Eats(s) ==> m.snake == [NewHead(s)] + s.snake)
      && (!Eats(s) ==> m.snake == [NewHead(s)] + s.snake[..|s.snake| - 1])
  {
    var m := MoveSnake(g, s, pick);
    if Eats(s) {
      assert m.snake[1..] == s.snake;
      assert m.snake == [m.snake[0]] + m.snake[1..];
    } else {
      assert m.snake[1..] == s.snake[..|s.snake| - 1];
      assert m.snake == [m.snake[0]] + m.snake[1..];
    }
  }

  /** The distinctness invariant: a tick that does not end the game leaves
      the snake's cells distinct and on the field and the food off the snake.
      A tick that ends the game still keeps the counting part of the invariant. */
  lemma {:induction false} TickPreservesInv(g: Grid, s: State, pick: nat)
    requires Inv(g, s) && s.running && CanTick(g, s)
    ensures Inv(g, GameLoop(g, s, pick))
  {
    if !s.paused {
      var m := MoveSnake(g, s, pick);
      var r := GameLoop(g, s, pick);
      MovedSnakeShape(g, s, pick);
      OppositeInvolutive(s.nextDirection);
      if r.running {
        assert !Collides(g, m.snake);
        var h := NewHead(s);
        if Eats(s) {
          PrependKeepsSafe(g, h, s.snake);
        } else {
          var rest := s.snake[..|s.snake| - 1];
          DropLastKeepsSafe(g, s.snake);
          assert m.snake[1..] == rest;
          PrependKeepsSafe(g, h, rest);
          assert s.food in rest ==> s.food in s.snake;
        }
      }
    }
  }

  /** Every event keeps the invariant. */
  lemma NextPreservesInv(g: Grid, s: State, e: Event)
    requires Fits(g) && Inv(g, s) && Enabled(g, s, e)
    ensures Inv(g, Next(g, s, e))
  {
    match e
    case StartClick(pick) => StartPreservesInv(g, s, pick);
    case PauseClick =>
    case KeyPress(k) => KeyDownPreservesInv(g, s, k);
    case DifficultyChange(d) =>
    case TimerTick(pick) => TickPreservesInv(g, s, pick);
  }

  /** Every state of a run from an invariant state satisfies the invariant. */
  lemma {:induction false} RunPreservesInv(g: Grid, states: seq<State>, events: seq<Event>)
    requires Fits(g) && IsRun(g, states, events) && Inv(g, states[0])
    ensures forall i :: 0 <= i < |states| ==> Inv(g, states[i])
    decreases |events|
  {
    if |events| > 0 {
      var n := |events| - 1;
      assert IsRun(g, states[..n + 1], events[..n]);
      RunPreservesInv(g, states[..n + 1], events[..n]);
      assert Inv(g, states[n]);
      NextPreservesInv(g, states[n], events[n]);
    }
  }

  /** Every state reached from page load satisfies the invariant; in
      particular the score is a non-negative multiple of 10, the tick interval
      is the one the selected difficulty names, and, while the
      game runs, the snake's cells are distinct and on the field. */
  lemma ReachableStatesAreSafe(g: Grid, difficulty: Difficulty, pick: nat,
                               states: seq<State>, events: seq<Event>)
    requires Fits(g) && HasFreeCell(g, InitialSnake())
    requires IsRun(g, states, events) && states[0] == PageLoad(g, difficulty, pick)
    ensures forall i :: 0 <= i < |states| ==> Inv(g, states[i])
    ensures forall i :: 0 <= i < |states| ==> states[i].score >= 0 && states[i].score % FoodScore == 0
    ensures forall i :: 0 <= i < |states| ==> states[i].speed == Speed(states[i].difficulty)
    ensures forall i :: 0 <= i < |states| && states[i].running ==>
              Distinct(states[i].snake) && AllInBounds(g, states[i].snake)
  {
    FitsHasFreeCell(g);
    PageLoadInv(g, difficulty, pick);
    RunPreservesInv(g, states, events);
  }

  /** No reversal: the heading a tick adopts is never the reverse of the
      heading before it. */
  lemma TickNeverReverses(g: Grid, s: State, pick: nat)
    requires Inv(g, s) && CanTick(g, s)
    ensures GameLoop(g, s, pick).direction != Opposite(s.direction)
  {
  }

  /** A tick changes the score by 0 or by 10 and never lowers it; it adds 10
      exactly when the snake grows. */
  lemma TickScore(g: Grid, s: State, pick: nat)
    requires CanTick(g, s)
    ensures var r := GameLoop(g, s, pick);
      && (r.score == s.score || r.score == s.score + FoodScore)
      && (r.score == s.score + FoodScore <==> !s.paused && Eats(s))
      && (|r.snake| == |s.snake| + 1 <==> !s.paused && Eats(s))
  {
  }

  /** A tick that eats never ends the game: the food is on the field and off
      the snake, so the new head is neither off the field nor on the body. */
  lemma EatingNeverEndsGame(g: Grid, s: State, pick: nat)
    requires Inv(g, s) && s.running && !s.paused && CanTick(g, s) && Eats(s)
    ensures GameLoop(g, s, pick).running
  {
    MovedSnakeShape(g, s, pick);
    var m := MoveSnake(g, s, pick);
    assert m.snake[1..] == s.snake;
  }

  /** Because the tail is dropped before the collision check, stepping into
      the cell the tail leaves does not end the game. */
  lemma TailChaseIsSafe(g: Grid, s: State, pick: nat)
    requires Inv(g, s) && s.running && !s.paused && CanTick(g, s)
    requires NewHead(s) == s.snake[|s.snake| - 1]
    ensures GameLoop(g, s, pick).running
  {
    assert !Eats(s);
    MovedSnakeShape(g, s, pick);
    var m := MoveSnake(g, s, pick);
    DropLastKeepsSafe(g, s.snake);
    assert m.snake[1..] == s.snake[..|s.snake| - 1];
  }

  /** A tick while paused changes nothing at all. */
  lemma PausedTickIsNoOp(g: Grid, s: State, pick: nat)
    requires CanTick(g, s) && s.paused
    ensures GameLoop(g, s, pick) == s
  {
  }

  /** Pausing twice restores the state, and the space key pauses exactly as
      the pause button does. */
  lemma PauseToggleInvolutive(s: State)
    ensures TogglePause(TogglePause(s)) == s
    ensures KeyDown(s, Space) == TogglePause(s)
  {
  }
}
