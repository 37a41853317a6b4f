# Brick breaker game: a verified model

This project models the game logic of `BrickBreakerGame`, a small Swing
brick-breaker. The modelled parts are:

- the state the constructor sets up;
- the timer callback `actionPerformed`, which moves the ball, bounces it off
  the walls, the ceiling, the paddle and the bricks, and ends the game;
- `resetGame`;
- the key handler.

A key press works in two steps. It first drives the two-press reset
protocol, where the first key after a game over requests a reset and the
next tick or key performs it. It then moves the paddle left or right by 40.

The project has three modules.

- `BrickGrid` (`brick_grid.dfy`) describes the brick wall as a value.
  - The wall is a grid of rows of cells, where 1 is an active brick.
  - The wall is 1 row by 2 columns, and each cell is 50 by 20.
  - It has functions that count active bricks and count the hits made by a
    ball standing at one point. It also computes the wall after every active
    brick whose closed rectangle contains that point has been knocked out.
- `GameModel` (`game_model.dfy`) describes the whole game state as a
  datatype.
  - It defines the initial state, one timer tick (`Step`) and one key press
    (`Press`), plus runs of ticks and key presses (`Run`).
  - It defines the invariant `Inv` that every reachable state satisfies, and
    proves the lemmas about these functions.
- `BrickBreakerGame` (`game.dfy`) is the game object as a class.
  - Its fields are those of the Java class, and the brick wall is an
    `array2<int>`.
  - The constructor and `Reset` produce `Initial()`. `Tick` performs `Step`
    on the fields and `KeyPressed` performs `Press`.
  - The loops over the brick array are proved against the grid functions by
    loop invariants, through a ghost field `cells` that mirrors the array.

Proved facts about a brick collision:

- The ball's vertical speed is negated once per brick knocked out.
- The two bricks share the edge x = 50, and the rectangles are closed. So a
  ball arriving on that edge knocks out both bricks in the same tick, and its
  vertical speed ends up unchanged (`ExampleSharedEdge`).

Where the prose description of the game and the code differ, the model
follows the code:

- The code has no pause state and no Escape key.
- The paddle is not clamped to the window. Each move only checks the
  paddle's position before moving.
- The right wall is at `maxwidth - 50`, not at the width minus the ball size.

## Model

| member | source | states |
|---|---|---|
| BrickBreakerGame.Game.constructor | BrickBreakerGame.java:23-45 | the new game satisfies the invariant, its fields are exactly `Initial()` (ball at (100,100) moving (2,2), paddle 150, score 0, every brick active, not over, no reset requested), and the brick array is freshly allocated |
| BrickBreakerGame.Game.ActivateAll | BrickBreakerGame.java:189-195 | after the nested loops every cell of the brick array is 1 and the ghost grid mirrors the array |
| BrickBreakerGame.Game.Reset | BrickBreakerGame.java:179-199 | the fields are restored to exactly `Initial()`, the invariant holds, and the brick array is the same object, refilled in place |
| BrickBreakerGame.Game.Tick | BrickBreakerGame.java:52-129 | the new fields are exactly `Step` of the old ones, the invariant is kept, and the brick array is not reallocated |
| BrickBreakerGame.Game.MoveBall | BrickBreakerGame.java:66-90 | the ball moves by its speed; the game ends if the new y is at least 600; x speed is negated exactly at a side wall; y speed is negated once at the ceiling and once at the paddle |
| BrickBreakerGame.Game.CollideBricks | BrickBreakerGame.java:93-109 | the array afterwards is `ClearHits` of the array before; y speed is negated once per hit, and the score grows by the number of hits |
| BrickBreakerGame.Game.CollideRow | BrickBreakerGame.java:95-108 | the inner loop clears exactly the hit cells of row i, leaves other rows alone, and counts the row's hits into speed and score |
| BrickBreakerGame.Game.AllBricksDestroyed | BrickBreakerGame.java:112-123 | the flag is true exactly when no cell holds 1, which is exactly when the active count is 0 |
| BrickBreakerGame.Game.KeyPressed | BrickBreakerGame.java:215-241 | the new fields are exactly `Press` of the old ones; the invariant is kept and the array is not reallocated |
| BrickGrid.AllActive | BrickBreakerGame.java:38-45 | the full wall has the given dimensions and every cell is 1 |
| BrickGrid.ClearHitsCells | BrickBreakerGame.java:97-103 | clearing keeps the dimensions and keeps cells in {0,1}; a cell becomes 0 exactly when it held 1 and the ball is in its closed rectangle; every other cell is unchanged |
| BrickGrid.ClearHitsActive | BrickBreakerGame.java:97-106 | the active count after clearing plus the number of hits equals the active count before |
| BrickGrid.NoActiveIffZero | BrickBreakerGame.java:112-125 | "no cell is 1" holds if and only if the active count is 0 |
| BrickGrid.AllActiveCount | BrickBreakerGame.java:39-45 | a full rows x cols wall holds rows*cols active bricks |
| GameModel.InitialState | BrickBreakerGame.java:26-45 | the initial state has the constructor's values, 2 active bricks, and satisfies the invariant |
| GameModel.FlipAdd | BrickBreakerGame.java:81-106 | negating a times and then b times is negating a+b times, which is how the ceiling, paddle and brick bounces of one tick compose |
| GameModel.FlipMagnitude | BrickBreakerGame.java:79-104 | any number of negations leaves the magnitude unchanged |
| GameModel.MovePaddle | BrickBreakerGame.java:233-240 | the paddle moves by -40 exactly on Left with paddleX > 0; it moves by +40 exactly on Right with paddleX < maxwidth-100; otherwise it stays |
| GameModel.StepKeepsInv | BrickBreakerGame.java:52-129 | a tick keeps the invariant: cells in {0,1} and the grid shape; score + active bricks = 2; both speeds ±2; paddle in bounds; a reset request only when over; a running game has an active brick |
| GameModel.PressKeepsInv | BrickBreakerGame.java:215-241 | a key press keeps the same invariant |
| GameModel.RunKeepsInv | BrickBreakerGame.java:52-241 | any sequence of ticks and key presses from an invariant state ends in an invariant state |
| GameModel.ReachableInv | BrickBreakerGame.java:23-45 | every state reachable from the initial state satisfies the invariant |
| GameModel.StepIdleWhenOver | BrickBreakerGame.java:61-64 | a tick of a finished game without a reset request changes nothing |
| GameModel.StepResetsWhenRequested | BrickBreakerGame.java:54-58 | a tick of a finished game with a reset request yields exactly the initial state and nothing more |
| GameModel.StepMovesBall | BrickBreakerGame.java:66-80 | a running tick moves the ball by its speed and leaves the paddle and the reset flag alone; x speed is negated exactly when the new x is <= 0 or >= maxwidth-50 |
| GameModel.StepGameOver | BrickBreakerGame.java:70-128 | a running tick ends the game exactly when the new y is >= 600 or no brick is left |
| GameModel.StepOnlyClears | BrickBreakerGame.java:93-109 | outside a reset, every cell either keeps its value or goes from 1 to 0 |
| GameModel.StepClearsBrickIff | BrickBreakerGame.java:97-103 | in a running tick, brick (i,j) changes exactly when it was 1 and the moved ball lies in [j*50, j*50+50] x [i*20, i*20+20], and then it becomes 0 |
| GameModel.StepScore | BrickBreakerGame.java:97-106 | in a running tick the score grows by exactly the number of bricks knocked out |
| GameModel.StepSpeedY | BrickBreakerGame.java:81-106 | in a running tick the new y speed is the old one negated (ceiling hit + paddle hit + bricks knocked out) times |
| GameModel.PaddleMoveInBounds | BrickBreakerGame.java:233-240 | a key press keeps the paddle on the lattice 150 + 40k; it never goes below -10, and it is never at or past maxwidth-60 unless it is still at or left of 150 |
| GameModel.PaddleStrictBounds | BrickBreakerGame.java:233-240 | when the window is wider than 210, a reachable paddle position is strictly between -40 and maxwidth-60 |
| GameModel.PressProtocol | BrickBreakerGame.java:217-240 | a key press resets a finished game with a pending request (then moves the fresh paddle), records a request in a finished game without one, and withdraws any request in a running game; nothing else changes except the paddle |
| GameModel.PressThenTickResets | BrickBreakerGame.java:54-58 | after a game over, one key press and one tick give exactly the initial state |
| GameModel.TwoPressesReset | BrickBreakerGame.java:217-226 | after a game over, two key presses reset the game, and the second also moves the fresh paddle |
| GameModel.ExampleFirstBrick | BrickBreakerGame.java:97-106 | a ball moving into brick (0,0) alone clears only that brick, scores 1, bounces down and the game goes on |
| GameModel.ExampleSharedEdge | BrickBreakerGame.java:99-106 | a ball landing on the shared edge x = 50 clears both bricks in one tick, scores 2, ends the game, and its y speed is negated twice and so unchanged |

## Left out

- `paintComponent` (lines 134-176) is drawing only and is not modelled.
- `main`, the frame setup, the `javax.swing.Timer` and `repaint()` are not modelled. They are Swing wiring: each timer event is modelled as one call of `Tick` and each key event as one call of `KeyPressed`.
- Key events are reduced to `Key = Left | Right | Other`. Decoding `KeyEvent` key codes is part of Swing.
- `maxwidth` is a constructor parameter and a constant here. In the source it is a static field that `main` assigns from the frame width only after the constructor has started the timer (line 210), and ticks run on the Swing event thread. So the ticks that come before that assignment see `maxwidth == 0`, and at width 0 every tick negates the x speed. The model leaves out that early window and the threading.
- `resetRequested` is a static field in the source and is shared by all instances. The model has one game, so it is an ordinary field.
- `brickRowCount`, `brickColumnCount`, `brickWidth` and `brickHeight` are instance fields in the source that no code changes after the constructor. They are module constants here.
- BrickBreakerGame.Game.Tick: does not model Java's 32-bit `int` wrap-around of the ball coordinates or the score. The model uses unbounded integers. The score never exceeds 2, and the ball bounces between the walls and the ceiling until it reaches y = 600, so for a window of ordinary width no value comes near the 32-bit limits.
