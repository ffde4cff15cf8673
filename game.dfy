/** The game as the page keeps it: variables updated in place by the key
    handler, the timer callback and the restart and reset buttons. Each method
    but CreateFood is proved to perform the matching transition of module
    Rules and to keep the invariant Rules.Inv; CreateFood is proved against
    Food.FirstFree. Random numbers come in as `draws` (see module Food). */
module SnakeGame {
  import opened Grid
  import opened Food
  import Rules
  import Properties

  class Game {
    const gameWidth: int
    const gameHeight: int
    var snake: seq<Cell>
    var xVelocity: int
    var yVelocity: int
    var foodX: int
    var foodY: int
    var score: nat
    var highScore: nat
    var running: bool
    var started: bool

    function State(): Rules.State
      reads this
    {
      Rules.State(snake, xVelocity, yVelocity, Cell(foodX, foodY), score, highScore, running, started)
    }

    function Food(): Cell
      reads this
    {
      Cell(foodX, foodY)
    }

    predicate Valid()
      reads this
    {
      Rules.Inv(State(), gameWidth, gameHeight)
    }

    /** Page load: the initial variables, the stored high score (0 when none
        is stored) and the first food. */
    constructor (width: int, height: int, storedHighScore: nat, draws: seq<(real, real)>)
      requires IsBoard(width, height)
      requires Places(draws, Rules.InitialSnake(), width, height)
      ensures gameWidth == width && gameHeight == height
      ensures Food() == FirstFree(draws, Rules.InitialSnake(), width, height)
      ensures State() == Rules.Initial(Food(), storedHighScore)
      ensures Valid()
    {
      gameWidth, gameHeight := width, height;
      running, started := false, false;
      score, highScore := 0, storedHighScore;
      xVelocity, yVelocity := UnitSize, 0;
      snake := Rules.InitialSnake();
      new;
      CreateFood(draws);
      Properties.InitialKeepsInv(Food(), storedHighScore, width, height);
    }

    /** Place the food on the first drawn cell that is not under the snake. */
    method CreateFood(draws: seq<(real, real)>)
      requires Places(draws, snake, gameWidth, gameHeight)
      modifies this`foodX, this`foodY
      ensures Food() == FirstFree(draws, snake, gameWidth, gameHeight)
      ensures IsFoodCell(Food(), snake, gameWidth, gameHeight)
      ensures old(Valid()) ==> Valid()
    {
      foodX, foodY := PlaceFood(snake, gameWidth, gameHeight, draws);
    }

    /** Prepend the new head; eat the food or drop the tail. */
    method MoveSnake(draws: seq<(real, real)>)
      requires Valid() && running
      requires Rules.Eats(State()) ==> Places(draws, Rules.Grown(State()), gameWidth, gameHeight)
      modifies this
      ensures State() == Rules.MoveSnake(old(State()), Food())
      ensures Rules.Eats(old(State())) ==>
        Food() == FirstFree(draws, Rules.Grown(old(State())), gameWidth, gameHeight)
      ensures Valid()
    {
      ghost var s := State();
      var head := Cell(snake[0].x + xVelocity, snake[0].y + yVelocity);
      snake := [head] + snake;
      if snake[0].x == foodX && snake[0].y == foodY {
        score := score + 1;
        CreateFood(draws);
      } else {
        snake := snake[..|snake| - 1];
      }
      Properties.MoveSnakeKeepsInv(s, Food(), gameWidth, gameHeight);
    }

    /** A direction input: up, down or right starts a game not yet started;
        then the velocity turns unless the key asks for the reverse. */
    method ChangeDirection(key: string)
      requires Valid()
      modifies this
      ensures State() == Rules.ChangeDirection(old(State()), key)
      ensures Valid()
    {
      ghost var s := State();
      if !started && (key == "ArrowUp" || key == "ArrowDown" || key == "ArrowRight") {
        started := true;
        running := true;
      }
      if key == "ArrowUp" && yVelocity != UnitSize {
        xVelocity, yVelocity := 0, -UnitSize;
      } else if key == "ArrowDown" && yVelocity != -UnitSize {
        xVelocity, yVelocity := 0, UnitSize;
      } else if key == "ArrowRight" && xVelocity != -UnitSize {
        xVelocity, yVelocity := UnitSize, 0;
      } else if key == "ArrowLeft" && xVelocity != UnitSize {
        xVelocity, yVelocity := -UnitSize, 0;
      }
      Properties.ChangeDirectionKeepsInv(s, key, gameWidth, gameHeight);
    }

    /** Stop the game when the head is off the board or on the body. */
    method CheckGameOver()
      requires |snake| > 0
      modifies this`running
      ensures State() == Rules.CheckGameOver(old(State()), gameWidth, gameHeight)
      ensures old(Valid()) ==> Valid()
    {
      var head := snake[0];
      if head.x < 0 {
        running := false;
      } else if head.x >= gameWidth {
        running := false;
      } else if head.y < 0 {
        running := false;
      } else if head.y >= gameHeight {
        running := false;
      }
      for i := 1 to |snake|
        invariant running == (old(running) && OnBoard(head, gameWidth, gameHeight) && head !in snake[1..i])
      {
        if snake[i] == head {
          running := false;
        }
      }
      assert snake[1..|snake|] == snake[1..];
    }

    method CheckHighScore()
      modifies this`highScore
      ensures State() == Rules.CheckHighScore(old(State()))
      ensures old(Valid()) ==> Valid()
    {
      if highScore < score {
        highScore := score;
      }
    }

    /** Back to the initial snake, velocity and score, with new food; ignored
        while the game runs. */
    method RestartGame(draws: seq<(real, real)>)
      requires Valid()
      requires !running ==> Places(draws, Rules.InitialSnake(), gameWidth, gameHeight)
      modifies this
      ensures State() == Rules.RestartGame(old(State()), Food())
      ensures !old(running) ==> Food() == FirstFree(draws, Rules.InitialSnake(), gameWidth, gameHeight)
      ensures Valid()
    {
      if !running {
        score := 0;
        xVelocity, yVelocity := UnitSize, 0;
        snake := Rules.InitialSnake();
        CreateFood(draws);
        started := false;
        Properties.InitialKeepsInv(Food(), highScore, gameWidth, gameHeight);
      }
    }

    /** The confirmed reset: zero the high score, then restart. */
    method ResetGame(draws: seq<(real, real)>)
      requires Valid()
      requires !running ==> Places(draws, Rules.InitialSnake(), gameWidth, gameHeight)
      modifies this
      ensures State() == Rules.ResetGame(old(State()), Food())
      ensures !old(running) ==> Food() == FirstFree(draws, Rules.InitialSnake(), gameWidth, gameHeight)
      ensures Valid()
    {
      highScore := 0;
      RestartGame(draws);
    }

    /** One firing of the timer: move, check for the end of the game, and when
        it has ended, update the high score as the next scheduling step does. */
    method Tick(draws: seq<(real, real)>)
      requires Valid() && running
      requires Rules.Eats(State()) ==> Places(draws, Rules.Grown(State()), gameWidth, gameHeight)
      modifies this
      ensures State() == Rules.Tick(old(State()), gameWidth, gameHeight, Food())
      ensures Rules.Eats(old(State())) ==>
        Food() == FirstFree(draws, Rules.Grown(old(State())), gameWidth, gameHeight)
      ensures Valid()
    {
      MoveSnake(draws);
      CheckGameOver();
      if !running {
        CheckHighScore();
      }
    }
  }
}
