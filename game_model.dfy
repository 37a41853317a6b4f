/** The whole game state as a value, together with the two transitions the
    game makes: one timer tick (Step) and one key press (Press).  The class
    in module BrickBreakerGame is proved to perform exactly these
    transitions on its fields and its brick array; the lemmas here say what
    the transitions do. */
module GameModel {
  import opened BrickGrid

  const InitialBallX := 100
  const InitialBallY := 100
  const InitialSpeed := 2
  const InitialPaddleX := 150

  /** Side of the ball's bounding box, used by the paddle test. */
  const BallSize := 20
  /** A ball whose y reaches this line is lost. */
  const LossLine := 600
  /** The right wall stands this far left of the window width. */
  const WallMargin := 50
  const PaddleTop := 500
  const PaddleWidth := 60
  const PaddleStep := 40
  /** A right move is allowed only while the paddle is left of width minus this. */
  const RightGuardMargin := 100

  datatype Key = Left | Right | Other

  datatype State = State(
    ballX: int, ballY: int,
    ballSpeedX: int, ballSpeedY: int,
    paddleX: int,
    score: int,
    gameOver: bool,
    resetRequested: bool,
    bricks: Grid)

  /** The state the game starts in, and the one every reset restores. */
  function Initial(): State {
    State(InitialBallX, InitialBallY, InitialSpeed, InitialSpeed, InitialPaddleX, 0,
          false, false, AllActive(BrickRowCount, BrickColumnCount))
  }

  /** v negated k times. */
  function Flip(v: int, k: nat): int {
    if k == 0 then v else -Flip(v, k - 1)
  }

  predicate HitsWall(x: int, maxwidth: int) {
    x <= 0 || x >= maxwidth - WallMargin
  }

  predicate HitsCeiling(y: int) {
    y <= 0
  }

  predicate HitsPaddle(x: int, y: int, paddleX: int) {
    y + BallSize >= PaddleTop && x + BallSize >= paddleX && x <= paddleX + PaddleWidth
  }

  function Count(b: bool): nat {
    if b then 1 else 0
  }

  /** One timer tick.  A finished game with a pending reset request is
      reset; a finished game without one is left alone; otherwise the ball
      moves one step, bounces off the walls, the ceiling, the paddle and the
      bricks it touches, and the game ends when the ball is lost or the wall
      is empty. */
  function Step(s: State, maxwidth: int): State {
    if s.gameOver && s.resetRequested then Initial()
    else if s.gameOver then s
    else
      var x := s.ballX + s.ballSpeedX;
      var y := s.ballY + s.ballSpeedY;
      var vx := if HitsWall(x, maxwidth) then -s.ballSpeedX else s.ballSpeedX;
      var vy := Flip(s.ballSpeedY, Count(HitsCeiling(y)));
      var vy' := Flip(vy, Count(HitsPaddle(x, y, s.paddleX)));
      var hits := Hits(s.bricks, x, y);
      var cells := ClearHits(s.bricks, x, y);
      State(x, y, vx, Flip(vy', hits), s.paddleX, s.score + hits,
            y >= LossLine || NoActive(cells), s.resetRequested, cells)
  }

  /** The paddle position after a key press, moving from p. */
  function MovePaddle(p: int, k: Key, maxwidth: int): (r: int)
    ensures r == p - PaddleStep <==> k == Left && p > 0
    ensures r == p + PaddleStep <==> k == Right && p < maxwidth - RightGuardMargin
    ensures r != p ==> r == p - PaddleStep || r == p + PaddleStep
  {
    var p1 := if k == Left && p > 0 then p - PaddleStep else p;
    if k == Right && p1 < maxwidth - RightGuardMargin then p1 + PaddleStep else p1
  }

  /** One key press: the reset protocol, then the paddle move. */
  function Press(s: State, k: Key, maxwidth: int): State {
    var s1 :=
      if s.gameOver then
        if s.resetRequested then Initial() else s.(resetRequested := true)
      else s.(resetRequested := false);
    s1.(paddleX := MovePaddle(s1.paddleX, k, maxwidth))
  }

  datatype Event = Timer | KeyPress(key: Key)

  function Apply(s: State, e: Event, maxwidth: int): State {
    match e
    case Timer => Step(s, maxwidth)
    case KeyPress(k) => Press(s, k, maxwidth)
  }

  /** The state after a sequence of timer ticks and key presses. */
  function Run(s: State, events: seq<Event>, maxwidth: int): State
    decreases |events|
  {
    if events == [] then s else Run(Apply(s, events[0], maxwidth), events[1..], maxwidth)
  }

  /** Where the paddle can be: it starts at 150 and moves in steps of 40, a
      left move needs it right of 0 and a right move needs it left of
      maxwidth - 100. */
  predicate PaddleInBounds(p: int, maxwidth: int) {
    p % PaddleStep == InitialPaddleX % PaddleStep &&
    -10 <= p &&
    (p <= InitialPaddleX || p < maxwidth - 60)
  }

  /** What holds of every state the game can reach. */
  predicate Inv(s: State, maxwidth: int) {
    && WellShaped(s.bricks)
    && Binary(s.bricks)
    && s.score + Active(s.bricks) == BrickRowCount * BrickColumnCount
    && (s.ballSpeedX == 2 || s.ballSpeedX == -2)
    && (s.ballSpeedY == 2 || s.ballSpeedY == -2)
    && PaddleInBounds(s.paddleX, maxwidth)
    && (s.resetRequested ==> s.gameOver)
    && (!s.gameOver ==> Active(s.bricks) > 0)
  }

  /** The initial state: ball at (100, 100) moving (2, 2), paddle at 150,
      score 0, every brick active, game running, no reset requested. */
  lemma InitialState(maxwidth: int)
    ensures Initial().ballX == 100 && Initial().ballY == 100
    ensures Initial().ballSpeedX == 2 && Initial().ballSpeedY == 2
    ensures Initial().paddleX == 150 && Initial().score == 0
    ensures !Initial().gameOver && !Initial().resetRequested
    ensures WellShaped(Initial().bricks) && NoActive(Initial().bricks) == false
    ensures Active(Initial().bricks) == BrickRowCount * BrickColumnCount
    ensures Inv(Initial(), maxwidth)
  {
    AllActiveCount(BrickRowCount, BrickColumnCount);
  }

  /** Negating a times and then b times is negating a + b times. */
  lemma {:induction false} FlipAdd(v: int, a: nat, b: nat)
    ensures Flip(Flip(v, a), b) == Flip(v, a + b)
  {
    if b > 0 {
      FlipAdd(v, a, b - 1);
    }
  }

  /** Negating never changes the magnitude. */
  lemma {:induction false} FlipMagnitude(v: int, k: nat)
    ensures Flip(v, k) == v || Flip(v, k) == -v
  {
    if k > 0 {
      FlipMagnitude(v, k - 1);
    }
  }

  /** A tick keeps every invariant. */
  lemma StepKeepsInv(s: State, maxwidth: int)
    requires Inv(s, maxwidth)
    ensures Inv(Step(s, maxwidth), maxwidth)
  {
    if s.gameOver && s.resetRequested {
      InitialState(maxwidth);
    } else if !s.gameOver {
      var x := s.ballX + s.ballSpeedX;
      var y := s.ballY + s.ballSpeedY;
      ClearHitsCells(s.bricks, x, y);
      ClearHitsActive(s.bricks, x, y);
      NoActiveIffZero(ClearHits(s.bricks, x, y));
      FlipMagnitude(s.ballSpeedY, Count(HitsCeiling(y)) + Count(HitsPaddle(x, y, s.paddleX))
                                  + Hits(s.bricks, x, y));
      StepSpeedY(s, maxwidth);
    }
  }

  /** A key press keeps every invariant. */
  lemma PressKeepsInv(s: State, k: Key, maxwidth: int)
    requires Inv(s, maxwidth)
    ensures Inv(Press(s, k, maxwidth), maxwidth)
  {
    InitialState(maxwidth);
    var p := if s.gameOver && s.resetRequested then InitialPaddleX else s.paddleX;
    PaddleMoveInBounds(p, k, maxwidth);
  }

  /** Every state reached from a state satisfying the invariant, by any
      sequence of ticks and key presses, satisfies it. */
  lemma {:induction false} RunKeepsInv(s: State, events: seq<Event>, maxwidth: int)
    requires Inv(s, maxwidth)
    ensures Inv(Run(s, events, maxwidth), maxwidth)
    decreases |events|
  {
    if events != [] {
      match events[0] {
        case Timer => StepKeepsInv(s, maxwidth);
        case KeyPress(k) => PressKeepsInv(s, k, maxwidth);
      }
      RunKeepsInv(Apply(s, events[0], maxwidth), events[1..], maxwidth);
    }
  }

  /** So from the initial state, whatever happens: cells stay 0 or 1, score
      and active bricks add up to the wall size, both speeds stay +-2, and the
      paddle stays in bounds. */
  lemma ReachableInv(events: seq<Event>, maxwidth: int)
    ensures Inv(Run(Initial(), events, maxwidth), maxwidth)
  {
    InitialState(maxwidth);
    RunKeepsInv(Initial(), events, maxwidth);
  }

  /** A tick of a finished game with no reset request changes nothing. */
  lemma StepIdleWhenOver(s: State, maxwidth: int)
    requires s.gameOver && !s.resetRequested
    ensures Step(s, maxwidth) == s
  {
  }

  /** A tick of a finished game with a pending reset request performs
      exactly the reset and does not move the ball. */
  lemma StepResetsWhenRequested(s: State, maxwidth: int)
    requires s.gameOver && s.resetRequested
    ensures Step(s, maxwidth) == Initial()
    ensures Step(s, maxwidth).ballX == 100 && Step(s, maxwidth).ballY == 100
    ensures Step(s, maxwidth).ballSpeedX == 2 && Step(s, maxwidth).ballSpeedY == 2
    ensures Step(s, maxwidth).paddleX == 150 && Step(s, maxwidth).score == 0
    ensures !Step(s, maxwidth).gameOver && !Step(s, maxwidth).resetRequested
    ensures forall i, j :: 0 <= i < BrickRowCount && 0 <= j < BrickColumnCount ==>
      Step(s, maxwidth).bricks[i][j] == 1
  {
  }

  /** In a running tick the ball moves by its speed, the paddle and the
      reset flag are untouched, and the horizontal speed is negated exactly
      when the moved ball is at or past a side wall. */
  lemma StepMovesBall(s: State, maxwidth: int)
    requires !s.gameOver
    ensures Step(s, maxwidth).ballX == s.ballX + s.ballSpeedX
    ensures Step(s, maxwidth).ballY == s.ballY + s.ballSpeedY
    ensures Step(s, maxwidth).paddleX == s.paddleX
    ensures Step(s, maxwidth).resetRequested == s.resetRequested
    ensures Step(s, maxwidth).ballSpeedX ==
      if HitsWall(Step(s, maxwidth).ballX, maxwidth) then -s.ballSpeedX else s.ballSpeedX
  {
  }

  /** A running tick ends the game exactly when the moved ball is at or
      below the loss line or no brick is left; a loss is never undone by
      the rest of the tick. */
  lemma StepGameOver(s: State, maxwidth: int)
    requires !s.gameOver
    ensures Step(s, maxwidth).gameOver <==>
      s.ballY + s.ballSpeedY >= LossLine || Active(Step(s, maxwidth).bricks) == 0
  {
    NoActiveIffZero(Step(s, maxwidth).bricks);
  }

  /** No tick other than a reset turns a destroyed brick back on: every cell
      either stays as it was or goes from 1 to 0. */
  lemma StepOnlyClears(s: State, maxwidth: int, i: int, j: int)
    requires !(s.gameOver && s.resetRequested)
    requires 0 <= i < |s.bricks| && 0 <= j < |s.bricks[i]|
    ensures |Step(s, maxwidth).bricks| == |s.bricks|
    ensures |Step(s, maxwidth).bricks[i]| == |s.bricks[i]|
    ensures Step(s, maxwidth).bricks[i][j] == s.bricks[i][j] ||
      (s.bricks[i][j] == 1 && Step(s, maxwidth).bricks[i][j] == 0)
  {
    if !s.gameOver {
      ClearHitsCells(s.bricks, s.ballX + s.ballSpeedX, s.ballY + s.ballSpeedY);
    }
  }

  /** In a running tick brick (i, j) is knocked out exactly when it was
      active and the moved ball lies in its closed rectangle
      [j*50, j*50+50] x [i*20, i*20+20]. */
  lemma StepClearsBrickIff(s: State, maxwidth: int, i: int, j: int)
    requires !s.gameOver
    requires 0 <= i < |s.bricks| && 0 <= j < |s.bricks[i]|
    ensures |Step(s, maxwidth).bricks| == |s.bricks|
    ensures |Step(s, maxwidth).bricks[i]| == |s.bricks[i]|
    ensures Step(s, maxwidth).bricks[i][j] != s.bricks[i][j] <==>
      s.bricks[i][j] == 1 &&
      j * 50 <= s.ballX + s.ballSpeedX <= j * 50 + 50 &&
      i * 20 <= s.ballY + s.ballSpeedY <= i * 20 + 20
    ensures Step(s, maxwidth).bricks[i][j] != s.bricks[i][j] ==>
      Step(s, maxwidth).bricks[i][j] == 0
  {
    ClearHitsCells(s.bricks, s.ballX + s.ballSpeedX, s.ballY + s.ballSpeedY);
  }

  /** In a running tick the score grows by exactly the number of bricks
      knocked out. */
  lemma StepScore(s: State, maxwidth: int)
    requires !s.gameOver
    ensures Active(Step(s, maxwidth).bricks) <= Active(s.bricks)
    ensures Step(s, maxwidth).score ==
      s.score + (Active(s.bricks) - Active(Step(s, maxwidth).bricks))
  {
    ClearHitsActive(s.bricks, s.ballX + s.ballSpeedX, s.ballY + s.ballSpeedY);
  }

  /** In a running tick the vertical speed is negated once for a ceiling
      contact, once for a paddle contact and once per brick knocked out. */
  lemma StepSpeedY(s: State, maxwidth: int)
    requires !s.gameOver
    ensures
      var x := s.ballX + s.ballSpeedX;
      var y := s.ballY + s.ballSpeedY;
      Active(Step(s, maxwidth).bricks) <= Active(s.bricks) &&
      Step(s, maxwidth).ballSpeedY ==
        Flip(s.ballSpeedY, Count(HitsCeiling(y)) + Count(HitsPaddle(x, y, s.paddleX))
                           + (Active(s.bricks) - Active(Step(s, maxwidth).bricks)))
  {
    var x := s.ballX + s.ballSpeedX;
    var y := s.ballY + s.ballSpeedY;
    ClearHitsActive(s.bricks, x, y);
    var a, b := Count(HitsCeiling(y)), Count(HitsPaddle(x, y, s.paddleX));
    FlipAdd(s.ballSpeedY, a, b);
    FlipAdd(s.ballSpeedY, a + b, Hits(s.bricks, x, y));
  }

  /** The paddle can only be where PaddleInBounds says, after any key. */
  lemma PaddleMoveInBounds(p: int, k: Key, maxwidth: int)
    requires PaddleInBounds(p, maxwidth)
    ensures PaddleInBounds(MovePaddle(p, k, maxwidth), maxwidth)
  {
    var r := MovePaddle(p, k, maxwidth);
    if r == p - PaddleStep {
      assert (p - PaddleStep) % PaddleStep == p % PaddleStep;
    } else if r == p + PaddleStep {
      assert (p + PaddleStep) % PaddleStep == p % PaddleStep;
    }
  }

  /** From the starting paddle position, a wide enough window keeps the paddle
      strictly between -40 and maxwidth - 60. */
  lemma PaddleStrictBounds(p: int, maxwidth: int)
    requires PaddleInBounds(p, maxwidth) && maxwidth > InitialPaddleX + 60
    ensures -40 < p < maxwidth - 60
  {
  }

  /** The reset protocol of a key press: in a finished game with a pending
      request the game is reset (and then the paddle moves); in a finished
      game without one the request is recorded; in a running game any
      request is withdrawn.  Nothing else changes but the paddle. */
  lemma PressProtocol(s: State, k: Key, maxwidth: int)
    ensures s.gameOver && s.resetRequested ==>
      Press(s, k, maxwidth) ==
        Initial().(paddleX := MovePaddle(InitialPaddleX, k, maxwidth))
    ensures s.gameOver && !s.resetRequested ==>
      Press(s, k, maxwidth) ==
        s.(resetRequested := true, paddleX := MovePaddle(s.paddleX, k, maxwidth))
    ensures !s.gameOver ==>
      Press(s, k, maxwidth) ==
        s.(resetRequested := false, paddleX := MovePaddle(s.paddleX, k, maxwidth))
  {
  }

  /** After the game ends, one key press arms the reset and the next timer
      tick performs it: the state is then exactly the initial one. */
  lemma PressThenTickResets(s: State, k: Key, maxwidth: int)
    requires s.gameOver && !s.resetRequested
    ensures Step(Press(s, k, maxwidth), maxwidth) == Initial()
  {
  }

  /** After the game ends, two key presses in a row reset it, the second
      press also moving the fresh paddle. */
  lemma TwoPressesReset(s: State, k1: Key, k2: Key, maxwidth: int)
    requires s.gameOver && !s.resetRequested
    ensures Press(Press(s, k1, maxwidth), k2, maxwidth) ==
      Initial().(paddleX := MovePaddle(InitialPaddleX, k2, maxwidth))
  {
  }

  /** A ball that moves into brick (0, 0) and no other knocks it out, scores
      one point and bounces down. */
  lemma ExampleFirstBrick(maxwidth: int)
    requires maxwidth > 200
    ensures
      var s := Initial().(ballX := 48, ballY := 22, ballSpeedX := -2, ballSpeedY := -2);
      var t := Step(s, maxwidth);
      t.bricks == [[0, 1]] && t.score == 1 && t.ballSpeedY == 2 && !t.gameOver
  {
    var s := Initial().(ballX := 48, ballY := 22, ballSpeedX := -2, ballSpeedY := -2);
    var t := Step(s, maxwidth);
    ClearHitsCells(s.bricks, 46, 20);
    assert t.bricks[0][0] == 0 && t.bricks[0][1] == 1;
    assert t.bricks[0] == [0, 1];
    assert t.bricks == [[0, 1]];
    ClearHitsActive(s.bricks, 46, 20);
    InitialState(maxwidth);
    assert Active([[0, 1]]) == 1 by {
      assert RowActive([0, 1], 2) == 1;
      assert RowsActive([[0, 1]], 1) == RowActive([0, 1], 2);
    }
  }

  /** The two bricks share the edge x = 50, and the rectangles are closed: a
      ball arriving on that edge knocks out both bricks in one tick, scores
      two, ends the game, and its vertical speed, negated twice, is
      unchanged. */
  lemma ExampleSharedEdge(maxwidth: int)
    requires maxwidth > 200
    ensures
      var s := Initial().(ballX := 52, ballY := 12, ballSpeedX := -2, ballSpeedY := -2);
      var t := Step(s, maxwidth);
      t.bricks == [[0, 0]] && t.score == 2 && t.ballSpeedY == -2 && t.gameOver
  {
    var s := Initial().(ballX := 52, ballY := 12, ballSpeedX := -2, ballSpeedY := -2);
    var t := Step(s, maxwidth);
    ClearHitsCells(s.bricks, 50, 10);
    assert t.bricks[0][0] == 0 && t.bricks[0][1] == 0;
    assert t.bricks[0] == [0, 0];
    assert t.bricks == [[0, 0]];
    ClearHitsActive(s.bricks, 50, 10);
    InitialState(maxwidth);
    assert Active([[0, 0]]) == 0 by {
      assert RowActive([0, 0], 2) == 0;
      assert RowsActive([[0, 0]], 1) == RowActive([0, 0], 2);
    }
  }
}
