/** The game's state machine as pure transitions on a snapshot of its state.
    The Game class in module SnakeGame is proved against these functions. */
module Rules {
  import opened Grid

  /** Segments of the snake at the start of every game. */
  const InitialLength: nat := 5

  /** The game's variables: the snake (head first), its velocity in pixels per
      tick, the food, the scores, whether the timer loop runs and whether the
      current game has been started by a key. */
  datatype State = State(
    snake: seq<Cell>,
    xVelocity: int,
    yVelocity: int,
    food: Cell,
    score: nat,
    highScore: nat,
    running: bool,
    started: bool)

  function InitialSnake(): seq<Cell> {
    [Cell(UnitSize * 5, UnitSize), Cell(UnitSize * 4, UnitSize), Cell(UnitSize * 3, UnitSize),
     Cell(UnitSize * 2, UnitSize), Cell(UnitSize, UnitSize)]
  }

  /** The state when the page loads, with the stored high score. */
  function Initial(food: Cell, highScore: nat): State {
    State(InitialSnake(), UnitSize, 0, food, 0, highScore, false, false)
  }

  /** Consecutive segments are one cell apart. */
  predicate Chain(snake: seq<Cell>) {
    forall i :: 0 <= i < |snake| - 1 ==> Adjacent(snake[i], snake[i + 1])
  }

  /** What holds in every state the game can reach. */
  predicate Inv(s: State, width: int, height: int) {
    && IsBoard(width, height)
    && |s.snake| == InitialLength + s.score
    && Chain(s.snake)
    && (forall c :: c in s.snake ==> Aligned(c))
    && IsDirection(s.xVelocity, s.yVelocity)
    && IsFoodCell(s.food, s.snake, width, height)
    && (s.running ==> s.started)
    && (!s.started ==> s.snake == InitialSnake() && s.xVelocity == UnitSize && s.yVelocity == 0)
  }

  // ---------------------------------------------------------------- moving

  function NewHead(s: State): Cell
    requires |s.snake| > 0
  {
    Cell(s.snake[0].x + s.xVelocity, s.snake[0].y + s.yVelocity)
  }

  predicate Eats(s: State)
    requires |s.snake| > 0
  {
    NewHead(s) == s.food
  }

  /** The snake with the new head prepended and the tail still on. */
  function Grown(s: State): seq<Cell>
    requires |s.snake| > 0
  {
    [NewHead(s)] + s.snake
  }

  /** One step of the snake; newFood is where food is placed if it is eaten. */
  function MoveSnake(s: State, newFood: Cell): State
    requires |s.snake| > 0
  {
    if Eats(s) then s.(snake := Grown(s), score := s.score + 1, food := newFood)
    else s.(snake := Grown(s)[..|s.snake|])
  }

  // ------------------------------------------------------------- steering

  predicate IsArrow(key: string) {
    key == "ArrowUp" || key == "ArrowDown" || key == "ArrowLeft" || key == "ArrowRight"
  }

  /** The velocity an arrow key names. */
  function Heading(key: string): (int, int)
    requires IsArrow(key)
  {
    match key
    case "ArrowUp" => (0, -UnitSize)
    case "ArrowDown" => (0, UnitSize)
    case "ArrowLeft" => (-UnitSize, 0)
    case _ => (UnitSize, 0)
  }

  /** The velocity after a key press: the first case whose guard holds wins. */
  function Turn(key: string, xVelocity: int, yVelocity: int): (int, int) {
    if key == "ArrowUp" && yVelocity != UnitSize then (0, -UnitSize)
    else if key == "ArrowDown" && yVelocity != -UnitSize then (0, UnitSize)
    else if key == "ArrowRight" && xVelocity != -UnitSize then (UnitSize, 0)
    else if key == "ArrowLeft" && xVelocity != UnitSize then (-UnitSize, 0)
    else (xVelocity, yVelocity)
  }

  /** The keys that start a game that has not been started. */
  predicate StartsGame(key: string) {
    key == "ArrowUp" || key == "ArrowDown" || key == "ArrowRight"
  }

  function ChangeDirection(s: State, key: string): State {
    var s' := if !s.started && StartsGame(key) then s.(started := true, running := true) else s;
    var v := Turn(key, s'.xVelocity, s'.yVelocity);
    s'.(xVelocity := v.0, yVelocity := v.1)
  }

  // ------------------------------------------------------------ game over

  /** The head has left the board or run into the body. */
  predicate GameOver(snake: seq<Cell>, width: int, height: int)
    requires |snake| > 0
  {
    !OnBoard(snake[0], width, height) || snake[0] in snake[1..]
  }

  function CheckGameOver(s: State, width: int, height: int): State
    requires |s.snake| > 0
  {
    if GameOver(s.snake, width, height) then s.(running := false) else s
  }

  function CheckHighScore(s: State): State {
    if s.highScore < s.score then s.(highScore := s.score) else s
  }

  // -------------------------------------------------------------- restart

  function RestartGame(s: State, newFood: Cell): State {
    if s.running then s
    else s.(score := 0, xVelocity := UnitSize, yVelocity := 0, snake := InitialSnake(),
            food := newFood, started := false)
  }

  function ResetGame(s: State, newFood: Cell): State {
    RestartGame(s.(highScore := 0), newFood)
  }

  // ----------------------------------------------------------------- tick

  /** One firing of the timer: move, test for the end of the game, and, when it
      has ended, the high-score update the next scheduling step performs. */
  function Tick(s: State, width: int, height: int, newFood: Cell): State
    requires |s.snake| > 0
  {
    var moved := CheckGameOver(MoveSnake(s, newFood), width, height);
    if moved.running then moved else CheckHighScore(moved)
  }

  // --------------------------------------------------------------- events

  /** What can happen to the game: a direction input, a timer firing, the
      restart request and the confirmed high-score reset. The food cell of the
      last three is where placement puts food if it is needed. */
  datatype Event =
    | Key(key: string)
    | Timer(food: Cell)
    | Restart(food: Cell)
    | Reset(food: Cell)

  /** The event can happen in s: the timer only fires while the game runs, and
      a placed food cell is one placement can return. */
  predicate Possible(s: State, e: Event, width: int, height: int) {
    match e
    case Key(_) => true
    case Timer(f) =>
      s.running && |s.snake| > 0 && (Eats(s) ==> IsFoodCell(f, Grown(s), width, height))
    case Restart(f) => !s.running ==> IsFoodCell(f, InitialSnake(), width, height)
    case Reset(f) => !s.running ==> IsFoodCell(f, InitialSnake(), width, height)
  }

  function Step(s: State, e: Event, width: int, height: int): State
    requires Possible(s, e, width, height)
  {
    match e
    case Key(key) => ChangeDirection(s, key)
    case Timer(f) => Tick(s, width, height, f)
    case Restart(f) => RestartGame(s, f)
    case Reset(f) => ResetGame(s, f)
  }

  predicate PossibleRun(s: State, events: seq<Event>, width: int, height: int)
    decreases |events|
  {
    events == [] ||
    (Possible(s, events[0], width, height) &&
     PossibleRun(Step(s, events[0], width, height), events[1..], width, height))
  }

  function Run(s: State, events: seq<Event>, width: int, height: int): State
    requires PossibleRun(s, events, width, height)
    decreases |events|
  {
    if events == [] then s
    else Run(Step(s, events[0], width, height), events[1..], width, height)
  }
}
