/** What the transitions of module Rules guarantee. */
module Properties {
  import opened Grid
  import opened Rules

  function Max(a: int, b: int): int {
    if a < b then b else a
  }

  // ---------------------------------------------------------------- moving

  /** The new head is the old head moved by the velocity; behind it comes the
      old snake, without its last segment unless the food was eaten. */
  lemma MoveSnakeShape(s: State, newFood: Cell)
    requires |s.snake| > 0
    ensures var r := MoveSnake(s, newFood);
      && |r.snake| > 0
      && r.snake[0] == Cell(s.snake[0].x + s.xVelocity, s.snake[0].y + s.yVelocity)
      && r.snake[1..] == if r.snake[0] == s.food then s.snake else s.snake[..|s.snake| - 1]
  {
  }

  /** Eating grows the snake and the score by exactly one and re-places the
      food; otherwise length, score and food stay as they were. Velocity, high
      score and the flags never change. */
  lemma MoveSnakeGrowth(s: State, newFood: Cell)
    requires |s.snake| > 0
    ensures var r := MoveSnake(s, newFood);
      && (Eats(s) ==> |r.snake| == |s.snake| + 1 && r.score == s.score + 1 && r.food == newFood)
      && (!Eats(s) ==> |r.snake| == |s.snake| && r.score == s.score && r.food == s.food)
      && r.xVelocity == s.xVelocity && r.yVelocity == s.yVelocity
      && r.highScore == s.highScore && r.running == s.running && r.started == s.started
  {
  }

  /** Food that is not under the snake is still not under it after a move. */
  lemma MoveSnakeKeepsFoodFree(s: State, newFood: Cell, width: int, height: int)
    requires |s.snake| > 0 && IsFoodCell(s.food, s.snake, width, height)
    requires Eats(s) ==> IsFoodCell(newFood, Grown(s), width, height)
    ensures var r := MoveSnake(s, newFood); IsFoodCell(r.food, r.snake, width, height)
  {
  }

  /** After a move the velocity points from the second segment to the head. */
  lemma MoveSnakeHeading(s: State, newFood: Cell, width: int, height: int)
    requires Inv(s, width, height) && s.started
    requires Eats(s) ==> IsFoodCell(newFood, Grown(s), width, height)
    ensures var r := MoveSnake(s, newFood);
      && |r.snake| >= 2
      && (r.xVelocity, r.yVelocity) == (r.snake[0].x - r.snake[1].x, r.snake[0].y - r.snake[1].y)
  {
  }

  lemma MoveSnakeKeepsInv(s: State, newFood: Cell, width: int, height: int)
    requires Inv(s, width, height) && s.started
    requires Eats(s) ==> IsFoodCell(newFood, Grown(s), width, height)
    ensures Inv(MoveSnake(s, newFood), width, height)
  {
    var r := MoveSnake(s, newFood);
    MoveSnakeKeepsFoodFree(s, newFood, width, height);
    var g := Grown(s);
    assert Adjacent(g[0], g[1]);
    assert Chain(g) by {
      forall i | 0 <= i < |g| - 1 ensures Adjacent(g[i], g[i + 1]) {
        if i > 0 {
          assert g[i] == s.snake[i - 1] && g[i + 1] == s.snake[i];
        }
      }
    }
    assert Aligned(g[0]) by {
      assert s.snake[0] in s.snake;
    }
    assert forall c :: c in g ==> Aligned(c);
    assert r.snake == g || r.snake == g[..|s.snake|];
    assert forall c :: c in r.snake ==> c in g;
  }

  // ------------------------------------------------------------- steering

  /** A key never turns the snake onto the exact reverse of its velocity. */
  lemma TurnNeverReverses(key: string, xVelocity: int, yVelocity: int)
    requires IsDirection(xVelocity, yVelocity)
    ensures Turn(key, xVelocity, yVelocity) != (-xVelocity, -yVelocity)
  {
  }

  /** A key that is not an arrow, or a rejected reversal, keeps the velocity;
      an accepted change is one cell along one axis. */
  lemma TurnAcceptedOrKept(key: string, xVelocity: int, yVelocity: int)
    ensures !IsArrow(key) ==> Turn(key, xVelocity, yVelocity) == (xVelocity, yVelocity)
    ensures var v := Turn(key, xVelocity, yVelocity);
      v != (xVelocity, yVelocity) ==> IsDirection(v.0, v.1)
  {
  }

  /** For a velocity along one axis, the guards of the key handler mean: take the
      key's heading unless it is the reverse of the current velocity. */
  lemma TurnMatchesHeading(key: string, xVelocity: int, yVelocity: int)
    requires IsDirection(xVelocity, yVelocity)
    ensures Turn(key, xVelocity, yVelocity) ==
      if IsArrow(key) && Heading(key) != (-xVelocity, -yVelocity) then Heading(key)
      else (xVelocity, yVelocity)
  {
  }

  /** In a game not yet started, up, down and right start it (the timer loop
      runs); left or any other key does not. Once started, a key leaves both
      flags as they are. Keys never touch the snake, the food or the scores. */
  lemma ChangeDirectionStarts(s: State, key: string)
    ensures var r := ChangeDirection(s, key);
      && (!s.started ==> (r.started <==> StartsGame(key)) && (r.running <==> s.running || StartsGame(key)))
      && (s.started ==> r.started && r.running == s.running)
      && r.snake == s.snake && r.food == s.food && r.score == s.score && r.highScore == s.highScore
  {
  }

  lemma ChangeDirectionKeepsInv(s: State, key: string, width: int, height: int)
    requires Inv(s, width, height)
    ensures Inv(ChangeDirection(s, key), width, height)
  {
  }

  // ------------------------------------------------------------ game over

  /** The game ends exactly when the head is off the board on some side or lies
      on a later segment; the check never sets `running` to true. */
  lemma CheckGameOverIff(s: State, width: int, height: int)
    requires |s.snake| > 0
    ensures var r := CheckGameOver(s, width, height); var head := s.snake[0];
      && r.running == (s.running && !(
        || head.x < 0 || head.x >= width || head.y < 0 || head.y >= height
        || exists i :: 1 <= i < |s.snake| && s.snake[i] == head))
      && r == s.(running := r.running)
  {
  }

  lemma CheckGameOverKeepsInv(s: State, width: int, height: int)
    requires Inv(s, width, height)
    ensures Inv(CheckGameOver(s, width, height), width, height)
  {
  }

  // ------------------------------------------------------------ high score

  /** The high score becomes the larger of itself and the score; nothing else changes. */
  lemma CheckHighScoreMax(s: State)
    ensures var r := CheckHighScore(s);
      r.highScore == Max(s.highScore, s.score) && r.highScore >= r.score
      && r == s.(highScore := r.highScore)
  {
  }

  // -------------------------------------------------------------- restart

  /** Restarting a running game does nothing; otherwise the game returns to its
      initial state, keeping only the high score and taking the new food. */
  lemma RestartGameInitial(s: State, newFood: Cell)
    ensures s.running ==> RestartGame(s, newFood) == s
    ensures !s.running ==> RestartGame(s, newFood) == Initial(newFood, s.highScore)
  {
  }

  /** Restarting twice is restarting once: only the food cell may differ. */
  lemma RestartGameTwice(s: State, food1: Cell, food2: Cell)
    requires !s.running
    ensures RestartGame(RestartGame(s, food1), food2) == RestartGame(s, food2)
    ensures RestartGame(RestartGame(s, food1), food2) == RestartGame(s, food1).(food := food2)
  {
  }

  /** The reset zeroes the high score, then restarts the game if it is not running. */
  lemma ResetGameInitial(s: State, newFood: Cell)
    ensures s.running ==> ResetGame(s, newFood) == s.(highScore := 0)
    ensures !s.running ==> ResetGame(s, newFood) == Initial(newFood, 0)
  {
  }

  lemma InitialKeepsInv(food: Cell, highScore: nat, width: int, height: int)
    requires IsBoard(width, height) && IsFoodCell(food, InitialSnake(), width, height)
    ensures Inv(Initial(food, highScore), width, height)
  {
  }

  lemma RestartGameKeepsInv(s: State, newFood: Cell, width: int, height: int)
    requires Inv(s, width, height)
    requires !s.running ==> IsFoodCell(newFood, InitialSnake(), width, height)
    ensures Inv(RestartGame(s, newFood), width, height)
    ensures Inv(ResetGame(s, newFood), width, height)
  {
  }

  // ----------------------------------------------------------------- tick

  /** A tick ends the game exactly when the moved snake is over, and then the
      high score has taken the final score into account. */
  lemma TickEnds(s: State, width: int, height: int, newFood: Cell)
    requires |s.snake| > 0 && s.running
    ensures var m := MoveSnake(s, newFood); var r := Tick(s, width, height, newFood);
      && |m.snake| > 0
      && (r.running <==> !GameOver(m.snake, width, height))
      && r.snake == m.snake && r.score == m.score && r.food == m.food
      && r.highScore == if r.running then s.highScore else Max(s.highScore, r.score)
  {
  }

  lemma TickKeepsInv(s: State, width: int, height: int, newFood: Cell)
    requires Inv(s, width, height) && s.running
    requires Eats(s) ==> IsFoodCell(newFood, Grown(s), width, height)
    ensures Inv(Tick(s, width, height, newFood), width, height)
  {
    MoveSnakeKeepsInv(s, newFood, width, height);
    CheckGameOverKeepsInv(MoveSnake(s, newFood), width, height);
  }

  // --------------------------------------------------------------- events

  lemma StepKeepsInv(s: State, e: Event, width: int, height: int)
    requires Inv(s, width, height) && Possible(s, e, width, height)
    ensures Inv(Step(s, e, width, height), width, height)
  {
    match e
    case Key(key) => ChangeDirectionKeepsInv(s, key, width, height);
    case Timer(f) => TickKeepsInv(s, width, height, f);
    case Restart(f) => RestartGameKeepsInv(s, f, width, height);
    case Reset(f) => RestartGameKeepsInv(s, f, width, height);
  }

  /** Every state the game reaches keeps the invariant: the snake is a chain of
      grid cells whose length is the initial length plus the score, the velocity
      is one cell along one axis, and the food lies on the board off the snake. */
  lemma {:induction false} RunKeepsInv(s: State, events: seq<Event>, width: int, height: int)
    requires Inv(s, width, height) && PossibleRun(s, events, width, height)
    ensures Inv(Run(s, events, width, height), width, height)
    decreases |events|
  {
    if events != [] {
      StepKeepsInv(s, events[0], width, height);
      RunKeepsInv(Step(s, events[0], width, height), events[1..], width, height);
    }
  }

  /** While the grown snake leaves a cell of the board free, the timer can
      fire: food placement then only fails on a full board. */
  lemma TimerPossibleWhenRoom(s: State, width: int, height: int)
    requires Inv(s, width, height) && s.running
    requires |Grown(s)| < (width / UnitSize) * (height / UnitSize)
    ensures exists f :: Possible(s, Timer(f), width, height)
  {
    FreeCellWhenRoom(Grown(s), width, height);
    var f :| IsFoodCell(f, Grown(s), width, height);
    assert Possible(s, Timer(f), width, height);
  }

  // ------------------------------------------------------ reversal guard

  /** Right after a move the velocity points from the second segment to the
      head, so a single key press cannot send the head back onto that segment. */
  lemma OneKeyCannotReverse(s: State, key: string, width: int, height: int)
    requires Inv(s, width, height)
    requires (s.xVelocity, s.yVelocity) == (s.snake[0].x - s.snake[1].x, s.snake[0].y - s.snake[1].y)
    ensures NewHead(ChangeDirection(s, key)) != s.snake[1]
  {
  }

  /** The guard compares with the velocity, not with the last move: two key
      presses before one tick (up, then left, while moving right) reverse the
      snake, and the tick ends the game on its own second segment. */
  lemma TwoKeysReverse()
    ensures var s := State(InitialSnake(), UnitSize, 0, Cell(0, 0), 0, 0, true, true);
      var turned := ChangeDirection(ChangeDirection(s, "ArrowUp"), "ArrowLeft");
      && Inv(s, 500, 500)
      && (turned.xVelocity, turned.yVelocity) == (-s.xVelocity, -s.yVelocity)
      && NewHead(turned) == s.snake[1]
      && !Tick(turned, 500, 500, Cell(0, 0)).running
  {
    var s := State(InitialSnake(), UnitSize, 0, Cell(0, 0), 0, 0, true, true);
    InitialKeepsInv(Cell(0, 0), 0, 500, 500);
    var turned := ChangeDirection(ChangeDirection(s, "ArrowUp"), "ArrowLeft");
    var moved := MoveSnake(turned, Cell(0, 0));
    assert moved.snake[0] == moved.snake[2];
    assert moved.snake[0] in moved.snake[1..];
  }

  // ------------------------------------------------------------ scenarios

  /** A 500 by 500 board: from the initial snake moving right, a move without
      food shifts every segment; with food at (150, 25) the tail stays on. A head
      at (-25, 25) or on the third segment ends the game. */
  lemma Scenarios()
    ensures var s := Initial(Cell(0, 0), 0);
      MoveSnake(s, Cell(0, 0)).snake
        == [Cell(150, 25), Cell(125, 25), Cell(100, 25), Cell(75, 25), Cell(50, 25)]
    ensures var s := Initial(Cell(150, 25), 0); var r := MoveSnake(s, Cell(0, 0));
      && Eats(s) && |r.snake| == 6 && r.snake[0] == Cell(150, 25) && r.snake[5] == Cell(25, 25)
    ensures GameOver([Cell(-25, 25), Cell(0, 25)], 500, 500)
    ensures GameOver([Cell(50, 50), Cell(50, 75), Cell(50, 50)], 500, 500)
    ensures !GameOver([Cell(475, 25), Cell(450, 25)], 500, 500)
    ensures GameOver([Cell(500, 25), Cell(475, 25)], 500, 500)
  {
  }
}
