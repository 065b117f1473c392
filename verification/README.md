# Snake game state machine in Dafny

This project models the game logic of a browser Snake game (`script.js`).
The snake moves on a `gridWidth` × `gridHeight` field of cells, head first.
Each timer tick adopts the pending heading and steps the head one cell.
The snake then either grows, when the head lands on the food, or drops its tail.
The game ends when the head leaves the field or lands on a body segment.
Arrow keys set the pending heading but never its reverse.
The space key and the pause button toggle the pause, and the start button starts a fresh game.

Modules:

- `Geometry`: cells, headings, the field, and the one-cell step of `moveSnake`.
- `Food`: `generateFood`. The random draws are replaced by an input `pick` that selects one of the free cells.
- `SnakeGame`: the game variables as an immutable `State`, and one pure function per handler.
  The handlers are `initGame`, page load, `startGame`, `togglePause`, `keydown`, the difficulty change, `moveSnake` and `gameLoop`.
  `checkGameOver` is a method with the source's scan loop.
- `Safety`: the invariant of reachable states, the page's events as a transition function, and the lemmas proving that every event keeps the invariant.
- `Capacity`: when `generateFood` can return at all.

The field size is a parameter `g: Grid`. The random choice in `generateFood` is a parameter `pick: nat`.
Every free cell is the outcome for some `pick`, and no other cell is.

Two facts about `script.js` shape the state:

- After game over `running` is false, as before the first start (script.js:176). No separate "over" flag exists.
- Pausing does not stop the timer. `gameLoop` keeps firing and returns at once while `paused` is set (script.js:169, 202-207).

## Model

| member | source | states |
|---|---|---|
| `Geometry.NextHead` | script.js:113-129 | the new head is at distance exactly 1 from the old one, on the axis the heading names: up decreases y, down increases y, left decreases x, right increases x |
| `Geometry.Opposite` | script.js:223-235 | the reverse heading that each arrow key's guard tests against is the other heading on the same axis: up/down and left/right pair up |
| `Geometry.StepThenOppositeReturns` | script.js:116-129 | a step followed by a step in the reverse heading returns to the start cell |
| `Food.RowFree` | script.js:64-69 | enumerates exactly the cells of one row, from a given column on, that the snake does not occupy |
| `Food.FreeFrom` | script.js:64-69 | enumerates exactly the field cells, from a given row down, that the snake does not occupy |
| `Food.FreeCells` | script.js:64-69 | a cell is listed iff it is on the field and not on the snake: these are the cells the retry loop can accept |
| `Food.GenerateFood` | script.js:61-72 | the food is placed on the field and on no snake cell; a free cell must exist, otherwise the retry loop never ends |
| `Food.GenerateFoodCoversFreeCells` | script.js:64-71 | every free cell is the outcome of some random input |
| `Food.GenerateFoodOutcomes` | script.js:64-71 | the possible food cells are exactly the free cells |
| `SnakeGame.InitialSnake` | script.js:36-40 | the initial snake has its head at (5, 10) and three distinct cells in a row, each one step left of the one before, so it is (5, 10), (4, 10), (3, 10) facing right |
| `SnakeGame.Speed` | script.js:27-31 | the difficulty table: easy 200 ms, medium 150 ms, hard 100 ms |
| `SnakeGame.HarderIsFaster` | script.js:27-31 | a harder difficulty always has a shorter tick interval |
| `SnakeGame.InitGame` | script.js:34-58 | initialisation lays out the initial snake, places food off it, sets the score to 0 and both headings to right, and takes the interval from the selected difficulty; the run flags and the selector are kept |
| `SnakeGame.PageLoad` | script.js:254 | the state after page load is an initialised, not-running, unpaused game: initial snake, score 0, both headings right, food off the snake, and the interval of the selector's initial difficulty |
| `SnakeGame.StartGame` | script.js:187-199 | starting is a no-op while a game runs; otherwise it gives a running, unpaused, freshly initialised game whose interval is that of the selected difficulty |
| `SnakeGame.TogglePause` | script.js:202-207 | the pause flag flips iff the game is running, and nothing else changes |
| `SnakeGame.Steer` | script.js:223-235 | an arrow key sets the pending heading iff it is not the reverse of the current heading, and changes nothing else |
| `SnakeGame.KeyDown` | script.js:215-240 | other keys do nothing; space acts as the pause toggle; each arrow key applies the steering rule with its own heading, so it changes only the pending heading, and never to the reverse of the current heading |
| `SnakeGame.ChangeDifficulty` | script.js:243-244 | a difficulty change records the selected value and sets the tick interval from it; nothing else changes |
| `SnakeGame.MoveSnake` | script.js:109-146 | the heading becomes the pending heading; the new head is one step away; the rest of the new snake is a prefix of the old one; the snake grows by one iff the food is eaten, else keeps its length; the score rises by 10 per segment grown; eaten food is replaced off the snake, and otherwise stays put |
| `SnakeGame.CheckGameOver` | script.js:149-165 | the result is true iff the head is off the field or equals a segment at index 1 or more |
| `SnakeGame.CollidesMeansHit` | script.js:149-165 | the collision predicate used by the game loop agrees with that scan |
| `SnakeGame.GameLoop` | script.js:168-184 | a tick while paused changes nothing; otherwise the snake moves, and the game keeps running iff it was running and the moved snake does not collide |
| `Safety.Next` | script.js:210-251 | wires each event to its handler's behaviour: a pause click or space flips `paused` iff running and changes nothing else; other keys do nothing; an arrow key changes only the pending heading, adopting its own heading unless that is the reverse of the current one; a selector change records the new difficulty and its interval and changes nothing else; a start is a no-op while running, otherwise a fresh running, unpaused game with the initial snake, food on the field and off the snake, score 0, both headings right and the selected interval; a timer tick changes nothing while paused, otherwise it is the move of the snake with only the running flag changed: it adopts the pending heading, steps the head once, keeps a prefix of the old snake behind it, grows by one iff it eats (else keeps length and food), adds 10 per segment grown, puts new food on the field and off the snake after eating, and keeps running iff the moved snake does not collide; only a selector change alters the selected difficulty |
| `Safety.PageLoadInv` | script.js:254 | the page-load state satisfies the invariant |
| `Safety.StartPreservesInv` | script.js:187-192 | on a field that holds the initial snake, the start button leads to a state satisfying the invariant |
| `Safety.KeyDownPreservesInv` | script.js:223-237 | key presses keep the pending heading off the reverse of the current heading |
| `Safety.MovedSnakeShape` | script.js:132-145 | after a move the snake is the new head followed by the old snake when food is eaten, and by the old snake minus its tail otherwise |
| `Safety.TickPreservesInv` | script.js:168-184 | a tick keeps the invariant: distinct snake cells on the field, food on the field and off the snake, score equal to 10 per segment grown, no pending reversal |
| `Safety.NextPreservesInv` | script.js:210-251 | every event (start, pause, key, difficulty change, timer tick) keeps the invariant |
| `Safety.RunPreservesInv` | script.js:210-251 | every state of a run of events from an invariant state satisfies the invariant |
| `Safety.ReachableStatesAreSafe` | script.js:210-254 | every state reachable from page load has a score that is a non-negative multiple of 10 and the interval of the selected difficulty, and a running game has distinct snake cells on the field |
| `Safety.TickNeverReverses` | script.js:111 | the heading a tick adopts is never the reverse of the heading before it |
| `Safety.TickScore` | script.js:138-145 | a tick leaves the score alone or adds exactly 10; it adds 10 iff the snake grows by one, which happens iff unpaused and eating |
| `Safety.EatingNeverEndsGame` | script.js:132-162 | a tick that eats never ends the game |
| `Safety.TailChaseIsSafe` | script.js:142-162 | stepping into the cell the tail is leaving does not end the game, because the tail is dropped before the collision check |
| `Safety.PausedTickIsNoOp` | script.js:169 | a tick while paused leaves the state unchanged |
| `Safety.PauseToggleInvolutive` | script.js:236-237 | toggling the pause twice restores the state, and the space key acts exactly like the pause button |
| `Capacity.FreeCellIffShort` | script.js:64-69 | for a snake of distinct cells on the field, a free cell exists iff the snake has fewer cells than the field |
| `Capacity.EatingTickReturnsIffRoomLeft` | script.js:138-141 | in a running game, an eating tick can place new food iff the grown snake still leaves a cell free |

## Left out

- Canvas rendering (`draw`) is not modelled. It is presentation only, and the food is drawn with a floating-point arc.
- DOM access is not modelled: element lookups, score text, button `disabled` flags and labels, `preventDefault` and the game-over `alert`.
- Timers are not modelled: `setInterval`/`clearInterval` and the interval restart on a difficulty change. Only the interval value is kept. The timer is represented by the `TimerTick` event, which is enabled exactly while the game runs. That holds because the interval is set in `startGame` and cleared at game over.
- `Math.random` is not modelled. It becomes the input `pick`, which selects among the free cells. The distribution of the retry loop is not modelled.
- When no free cell is left, `generateFood` loops forever. The model makes a free cell a precondition instead (`HasFreeCell`, and `FoodPlaceable` for a tick). `Capacity.EatingTickReturnsIffRoomLeft` states exactly when that precondition fails: on the tick that would let the snake fill the field.
- In the source, `gridWidth` and `gridHeight` are the canvas size divided by 20, which need not be whole numbers. The model takes them as natural numbers. The canvas size lives in the page's HTML, which is not part of this model.
- The in-bounds part of the invariant needs a field that holds the initial snake: width above 5 and height above 10 (`Safety.Fits`). The source does not check this.
- The difficulty selector is modelled as the three values of the table, held in the state. Any other value would make the interval undefined in the source. Its initial value comes from the page's HTML and is a parameter of `PageLoad`.
- `moveSnake` on an empty snake is excluded by a precondition. It cannot happen, because the snake has at least three cells from page load on.
