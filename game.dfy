/** The game object: the fields the timer callback and the key handler
    update in place, and the brick wall as a two-dimensional array of ints.
    The constructor and Reset produce GameModel.Initial(), Tick performs
    GameModel.Step and KeyPressed performs GameModel.Press on the fields, so
    every lemma proved about those functions holds of the object too.
    Valid() says that the ghost field cells mirrors the array and that the
    fields satisfy GameModel.Inv. */
module BrickBreakerGame {
  import opened BrickGrid
  import opened GameModel

  class Game {
    var ballX: int
    var ballY: int
    var ballSpeedX: int
    var ballSpeedY: int
    var paddleX: int
    var score: int
    var gameOver: bool
    var resetRequested: bool
    var bricks: array2<int>
    /** The width of the window, which bounds the ball and the paddle. */
    const maxwidth: int
    /** The brick array as a grid of rows. */
    ghost var cells: Grid

    /** cells holds exactly what the brick array holds. */
    ghost predicate Synced()
      reads this, bricks
    {
      |cells| == bricks.Length0 &&
      (forall a :: 0 <= a < |cells| ==> |cells[a]| == bricks.Length1) &&
      forall a, b :: 0 <= a < bricks.Length0 && 0 <= b < bricks.Length1 ==>
        cells[a][b] == bricks[a, b]
    }

    /** The fields as a GameModel state. */
    ghost function Model(): State
      reads this
    {
      State(ballX, ballY, ballSpeedX, ballSpeedY, paddleX, score, gameOver, resetRequested, cells)
    }

    ghost predicate Valid()
      reads this, bricks
    {
      bricks.Length0 == BrickRowCount && bricks.Length1 == BrickColumnCount &&
      Synced() && Inv(Model(), maxwidth)
    }

    constructor (maxwidth: int)
      ensures Valid() && fresh(bricks)
      ensures this.maxwidth == maxwidth
      ensures Model() == Initial()
    {
      ballX, ballY := InitialBallX, InitialBallY;
      ballSpeedX, ballSpeedY := InitialSpeed, InitialSpeed;
      paddleX := InitialPaddleX;
      score := 0;
      gameOver := false;
      resetRequested := false;
      bricks := new int[BrickRowCount, BrickColumnCount];
      this.maxwidth := maxwidth;
      new;
      ActivateAll();
      InitialState(maxwidth);
    }

    /** Sets every brick of the wall active. */
    method ActivateAll()
      modifies this`cells, bricks
      ensures Synced() && cells == AllActive(bricks.Length0, bricks.Length1)
    {
      for i := 0 to bricks.Length0
        invariant forall a, b :: 0 <= a < i && 0 <= b < bricks.Length1 ==> bricks[a, b] == 1
      {
        for j := 0 to bricks.Length1
          invariant forall a, b :: 0 <= a < i && 0 <= b < bricks.Length1 ==> bricks[a, b] == 1
          invariant forall b :: 0 <= b < j ==> bricks[i, b] == 1
        {
          bricks[i, j] := 1;
        }
      }
      cells := AllActive(bricks.Length0, bricks.Length1);
    }

    /** Restores the state the game was constructed in. */
    method Reset()
      requires bricks.Length0 == BrickRowCount && bricks.Length1 == BrickColumnCount
      modifies this, bricks
      ensures bricks == old(bricks) && Valid()
      ensures Model() == Initial()
    {
      ballX, ballY := InitialBallX, InitialBallY;
      ballSpeedX, ballSpeedY := InitialSpeed, InitialSpeed;
      paddleX := InitialPaddleX;
      score := 0;
      ActivateAll();
      gameOver := false;
      resetRequested := false;
      InitialState(maxwidth);
    }

    /** One timer tick. */
    method Tick()
      requires Valid()
      modifies this, bricks
      ensures Valid() && bricks == old(bricks)
      ensures Model() == Step(old(Model()), maxwidth)
    {
      if gameOver && resetRequested {
        Reset();
        return;
      }
      if gameOver {
        return;
      }
      ghost var s := Model();
      MoveBall();
      CollideBricks();
      var allBricksDestroyed := AllBricksDestroyed();
      if allBricksDestroyed {
        gameOver := true;
      }
      assert Model() == Step(s, maxwidth);
      StepKeepsInv(s, maxwidth);
    }

    /** The first part of a running tick: the ball moves by its speed, the
        game ends if it is at or below the loss line, and the speed is
        negated at a side wall, at the ceiling and at the paddle. */
    method MoveBall()
      modifies this`ballX, this`ballY, this`ballSpeedX, this`ballSpeedY, this`gameOver
      ensures ballX == old(ballX + ballSpeedX) && ballY == old(ballY + ballSpeedY)
      ensures gameOver == (old(gameOver) || ballY >= LossLine)
      ensures ballSpeedX == if HitsWall(ballX, maxwidth) then -old(ballSpeedX) else old(ballSpeedX)
      ensures ballSpeedY ==
        Flip(Flip(old(ballSpeedY), Count(HitsCeiling(ballY))), Count(HitsPaddle(ballX, ballY, paddleX)))
    {
      ballX := ballX + ballSpeedX;
      ballY := ballY + ballSpeedY;
      if ballY >= LossLine {
        gameOver := true;
      }
      if ballX <= 0 || ballX >= maxwidth - WallMargin {
        ballSpeedX := -ballSpeedX;
      }
      if ballY <= 0 {
        ballSpeedY := -ballSpeedY;
      }
      if ballY + BallSize >= PaddleTop && ballX + BallSize >= paddleX && ballX <= paddleX + PaddleWidth {
        ballSpeedY := -ballSpeedY;
      }
    }

    /** Knocks out every active brick the ball touches, negating the
        vertical speed and adding one to the score for each. */
    method CollideBricks()
      requires Synced()
      modifies this`ballSpeedY, this`score, this`cells, bricks
      ensures Synced()
      ensures cells == ClearHits(old(cells), ballX, ballY)
      ensures ballSpeedY == Flip(old(ballSpeedY), Hits(old(cells), ballX, ballY))
      ensures score == old(score) + Hits(old(cells), ballX, ballY)
    {
      for i := 0 to bricks.Length0
        invariant cells == old(cells)
        invariant forall a, b :: 0 <= a < i && 0 <= b < bricks.Length1 ==>
          bricks[a, b] == Cleared(cells[a][b], a, b, ballX, ballY)
        invariant forall a, b :: i <= a < bricks.Length0 && 0 <= b < bricks.Length1 ==>
          bricks[a, b] == cells[a][b]
        invariant ballSpeedY == Flip(old(ballSpeedY), RowsHits(cells, i, ballX, ballY))
        invariant score == old(score) + RowsHits(cells, i, ballX, ballY)
      {
        CollideRow(i);
        FlipAdd(old(ballSpeedY), RowsHits(cells, i, ballX, ballY),
                RowHits(cells[i], i, |cells[i]|, ballX, ballY));
      }
      ClearHitsCells(cells, ballX, ballY);
      cells := ClearHits(cells, ballX, ballY);
    }

    /** The inner loop of CollideBricks, over row i. */
    method CollideRow(i: int)
      requires 0 <= i < bricks.Length0 && |cells| == bricks.Length0
      requires |cells[i]| == bricks.Length1
      requires forall b :: 0 <= b < bricks.Length1 ==> bricks[i, b] == cells[i][b]
      modifies this`ballSpeedY, this`score, bricks
      ensures forall b :: 0 <= b < bricks.Length1 ==>
        bricks[i, b] == Cleared(cells[i][b], i, b, ballX, ballY)
      ensures forall a, b :: 0 <= a < bricks.Length0 && a != i && 0 <= b < bricks.Length1 ==>
        bricks[a, b] == old(bricks[a, b])
      ensures ballSpeedY == Flip(old(ballSpeedY), RowHits(cells[i], i, |cells[i]|, ballX, ballY))
      ensures score == old(score) + RowHits(cells[i], i, |cells[i]|, ballX, ballY)
    {
      for j := 0 to bricks.Length1
        invariant forall b :: 0 <= b < j ==>
          bricks[i, b] == Cleared(cells[i][b], i, b, ballX, ballY)
        invariant forall b :: j <= b < bricks.Length1 ==> bricks[i, b] == cells[i][b]
        invariant forall a, b :: 0 <= a < bricks.Length0 && a != i && 0 <= b < bricks.Length1 ==>
          bricks[a, b] == old(bricks[a, b])
        invariant ballSpeedY == Flip(old(ballSpeedY), RowHits(cells[i], i, j, ballX, ballY))
        invariant score == old(score) + RowHits(cells[i], i, j, ballX, ballY)
      {
        if bricks[i, j] == 1 {
          var brickX := j * BrickWidth;
          var brickY := i * BrickHeight;
          if ballX >= brickX && ballX <= brickX + BrickWidth &&
             ballY >= brickY && ballY <= brickY + BrickHeight {
            bricks[i, j] := 0;
            ballSpeedY := -ballSpeedY;
            score := score + 1;
          }
        }
      }
    }

    /** Whether no brick of the wall is active. */
    method AllBricksDestroyed() returns (allBricksDestroyed: bool)
      requires Synced()
      ensures allBricksDestroyed <==> NoActive(cells)
      ensures allBricksDestroyed <==> Active(cells) == 0
    {
      allBricksDestroyed := true;
      for i := 0 to bricks.Length0
        invariant allBricksDestroyed <==>
          forall a, b :: 0 <= a < i && 0 <= b < bricks.Length1 ==> bricks[a, b] != 1
      {
        for j := 0 to bricks.Length1
          invariant allBricksDestroyed <==>
            (forall a, b :: 0 <= a < i && 0 <= b < bricks.Length1 ==> bricks[a, b] != 1) &&
            (forall b :: 0 <= b < j ==> bricks[i, b] != 1)
        {
          if bricks[i, j] == 1 {
            allBricksDestroyed := false;
            break;
          }
        }
      }
      NoActiveIffZero(cells);
    }

    /** One key press: the reset protocol, then the paddle move. */
    method KeyPressed(k: Key)
      requires Valid()
      modifies this, bricks
      ensures Valid() && bricks == old(bricks)
      ensures Model() == Press(old(Model()), k, maxwidth)
    {
      ghost var s := Model();
      if gameOver {
        if resetRequested {
          Reset();
        } else {
          resetRequested := true;
        }
      } else {
        resetRequested := false;
      }
      if k == Left && paddleX > 0 {
        paddleX := paddleX - PaddleStep;
      }
      if k == Right && paddleX < maxwidth - RightGuardMargin {
        paddleX := paddleX + PaddleStep;
      }
      PressKeepsInv(s, k, maxwidth);
    }
  }
}
