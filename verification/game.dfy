/**
 * The Snake simulation: the module-level state of the browser game as one
 * object, with the session reset, placement of food and obstacles, the
 * per-tick step, the keyboard handler, pause and the elapsed-time counter.
 */
module SnakeGame {

  import opened Wrappers
  import opened Grid
  import opened Placement
  import opened Controls

  /** What one call of the game loop did; the three collisions call gameOver(false). */
  datatype TickOutcome = Skipped | Moved | Grew | HitWall | HitSelf | HitObstacle
  {
    predicate EndsGame()
    {
      HitWall? || HitSelf? || HitObstacle?
    }
  }

  /** The three-cell horizontal snake a session starts with, head at the centre, pointing right. */
  function InitialSnake(n: int): (s: seq<Cell>)
    requires n >= 4
    ensures |s| == 3 && s[0] == Cell(n / 2, n / 2)
    ensures WellFormedSnake(s, n)
    ensures s[1] == Step(s[0], Opposite(Right))
  {
    var centerX := n / 2;
    var centerY := n / 2;
    [Cell(centerX, centerY), Cell(centerX - 1, centerY), Cell(centerX - 2, centerY)]
  }

  /**
   * The board of a session in play: a snake of at least three cells in shape,
   * food inside the board and off the snake and the obstacles, and obstacles
   * inside the board, pairwise distinct and off the snake.
   */
  predicate BoardOk(n: int, snake: seq<Cell>, food: Option<Cell>, obstacles: seq<Cell>)
  {
    && |snake| >= 3
    && WellFormedSnake(snake, n)
    && food.Some? && InBounds(food.value, n)
    && food.value !in snake && food.value !in obstacles
    && AllInBounds(obstacles, n) && Distinct(obstacles)
    && (forall i :: 0 <= i < |obstacles| ==> obstacles[i] !in snake)
  }

  /** A tick that moves without eating keeps the board consistent. */
  lemma SlideKeepsBoard(n: int, snake: seq<Cell>, food: Option<Cell>, obstacles: seq<Cell>, head: Cell)
    requires BoardOk(n, snake, food, obstacles)
    requires InBounds(head, n) && Adjacent(head, snake[0])
    requires head !in snake && head !in obstacles && head != food.value
    ensures BoardOk(n, [head] + snake[..|snake| - 1], food, obstacles)
  {
    SlideKeepsShape(snake, head, n);
    var next := [head] + snake[..|snake| - 1];
    forall c | c in next ensures c in snake || c == head {
      if c != head {
        var i :| 0 <= i < |next| && next[i] == c;
        assert next[i] == snake[i - 1];
      }
    }
  }

  /** A tick that eats keeps the board consistent once the new food is off the grown snake. */
  lemma GrowKeepsBoard(n: int, snake: seq<Cell>, food: Option<Cell>, obstacles: seq<Cell>, head: Cell, newFood: Cell)
    requires BoardOk(n, snake, food, obstacles)
    requires InBounds(head, n) && Adjacent(head, snake[0])
    requires head !in snake && head !in obstacles
    requires InBounds(newFood, n) && newFood !in [head] + snake && newFood !in obstacles
    ensures BoardOk(n, [head] + snake, Some(newFood), obstacles)
  {
    GrowKeepsShape(snake, head, n);
    var next := [head] + snake;
    forall i | 0 <= i < |obstacles| ensures obstacles[i] !in next {
      assert obstacles[i] !in snake && obstacles[i] != head;
    }
  }

  /** The board initGame lays out: a fresh snake, food off it, obstacles off both. */
  lemma FreshBoard(n: int, snake: seq<Cell>, food: Cell, draws: seq<Cell>, count: nat, obstacles: seq<Cell>)
    requires |snake| >= 3 && WellFormedSnake(snake, n)
    requires InBounds(food, n) && food !in snake
    requires AllInBounds(draws, n)
    requires Place(draws, count, Cells(snake) + {food}) == Some(obstacles)
    ensures BoardOk(n, snake, Some(food), obstacles) && |obstacles| == count
  {
    PlacedCellsAreFree(draws, count, Cells(snake) + {food});
    PlacedInBounds(draws, count, Cells(snake) + {food}, n);
    forall i | 0 <= i < |obstacles| ensures obstacles[i] !in snake && obstacles[i] != food {
      InCells(obstacles[i], snake);
    }
  }

  class Game {
    var gridSize: int
    var snake: seq<Cell>
    var food: Option<Cell>
    var obstacles: seq<Cell>
    var direction: Direction
    var nextDirection: Direction
    var score: nat
    var foodEaten: nat
    var gameTime: nat
    var isPaused: bool
    var gameStarted: bool

    /** The state of a session in play. */
    ghost predicate Valid()
      reads this
    {
      && BoardOk(gridSize, snake, food, obstacles)
      && nextDirection != Opposite(direction)
      && score == 10 * foodEaten
    }

    /** The second segment lies one step behind the head in the committed direction. */
    ghost predicate Aligned()
      reads this
    {
      |snake| >= 2 && snake[1] == Step(snake[0], Opposite(direction))
    }

    /** The cells isPositionOccupied reports as taken. */
    ghost function Occupied(): (r: set<Cell>)
      reads this
    {
      Cells(snake) + Cells(obstacles)
    }

    /** The head the next tick computes. */
    ghost function NextHead(): (r: Cell)
      reads this
      requires |snake| >= 1
    {
      Step(snake[0], nextDirection)
    }

    /** The module-level values before any session is set up. */
    constructor ()
      ensures snake == [] && food == None && obstacles == []
      ensures direction == Right && nextDirection == Right
      ensures score == 0 && foodEaten == 0 && gameTime == 0
      ensures !isPaused && !gameStarted && gridSize == 20
    {
      isPaused := false;
      gameStarted := false;
      snake := [];
      food := None;
      obstacles := [];
      direction := Right;
      nextDirection := Right;
      score := 0;
      foodEaten := 0;
      gameTime := 0;
      gridSize := 20;
    }

    /**
     * Sets up a session on a levelGridSize-square board: the initial snake,
     * direction RIGHT, zero counters, then food (avoiding the snake and the
     * obstacles still left from any previous session) and then the level's
     * obstacles.
     */
    method InitGame(levelGridSize: int, obstaclesCount: nat, foodDraws: seq<Cell>, obstacleDraws: seq<Cell>)
      requires levelGridSize >= 4
      requires AllInBounds(foodDraws, levelGridSize) && AllInBounds(obstacleDraws, levelGridSize)
      requires var s := InitialSnake(levelGridSize);
               var i := FirstFreeFrom(foodDraws, 0, Cells(s) + Cells(obstacles));
               i.Some? && Place(obstacleDraws, obstaclesCount, Cells(s) + {foodDraws[i.value]}).Some?
      modifies this
      ensures Valid() && Aligned()
      ensures gridSize == levelGridSize && snake == InitialSnake(levelGridSize)
      ensures food == Some(foodDraws[FirstFreeFrom(foodDraws, 0, Cells(snake) + old(Cells(obstacles))).value])
      ensures obstacles == Place(obstacleDraws, obstaclesCount, Cells(snake) + {food.value}).value
      ensures |obstacles| == obstaclesCount
      ensures direction == Right && nextDirection == Right
      ensures score == 0 && foodEaten == 0 && gameTime == 0
      ensures !gameStarted && !isPaused
    {
      ResetSession(levelGridSize);
      GenerateFood(foodDraws);
      GenerateObstacles(obstaclesCount, obstacleDraws);
      FreshBoard(gridSize, snake, food.value, obstacleDraws, obstaclesCount, obstacles);

      isPaused := false;
    }

    /** The session reset at the top of initGame: board size, the three-cell snake, RIGHT, zero counters, not started. */
    method ResetSession(levelGridSize: int)
      requires levelGridSize >= 4
      modifies this`gridSize, this`snake, this`direction, this`nextDirection, this`score, this`foodEaten, this`gameTime, this`gameStarted
      ensures gridSize == levelGridSize && snake == InitialSnake(levelGridSize)
      ensures direction == Right && nextDirection == Right
      ensures score == 0 && foodEaten == 0 && gameTime == 0 && !gameStarted
    {
      gridSize := levelGridSize;
      snake := InitialSnake(gridSize);
      direction := Right;
      nextDirection := Right;
      score := 0;
      foodEaten := 0;
      gameTime := 0;
      gameStarted := false;
    }

    /** Whether (x, y) is a snake segment or an obstacle. */
    method IsPositionOccupied(x: int, y: int) returns (occupied: bool)
      ensures occupied <==> Cell(x, y) in snake || Cell(x, y) in obstacles
    {
      for i := 0 to |snake|
        invariant forall k :: 0 <= k < i ==> snake[k] != Cell(x, y)
      {
        if snake[i].x == x && snake[i].y == y {
          return true;
        }
      }
      for i := 0 to |obstacles|
        invariant forall k :: 0 <= k < i ==> obstacles[k] != Cell(x, y)
      {
        if obstacles[i].x == x && obstacles[i].y == y {
          return true;
        }
      }
      return false;
    }

    /** Draws cells until one is unoccupied and leaves the food there. */
    method GenerateFood(draws: seq<Cell>)
      requires AllInBounds(draws, gridSize)
      requires FirstFreeFrom(draws, 0, Occupied()).Some?
      modifies this`food
      ensures food == Some(draws[FirstFreeFrom(draws, 0, Occupied()).value])
      ensures InBounds(food.value, gridSize) && food.value !in snake && food.value !in obstacles
    {
      FirstFreeIsFirst(draws, 0, Occupied());
      ghost var k := FirstFreeFrom(draws, 0, Occupied()).value;
      var validPosition := false;
      var i := 0;
      while !validPosition
        invariant i <= k + 1
        invariant !validPosition ==> i <= k
        invariant validPosition ==> i == k + 1 && food == Some(draws[k])
        decreases k + 1 - i
      {
        food := Some(draws[i]);
        var occupied := IsPositionOccupied(draws[i].x, draws[i].y);
        validPosition := !occupied;
        i := i + 1;
      }
    }

    /**
     * Replaces the obstacles by `count` new ones, each drawn until it is off
     * the snake, off the obstacles placed so far and off the food.
     */
    method GenerateObstacles(count: nat, draws: seq<Cell>)
      requires food.Some?
      requires Place(draws, count, Cells(snake) + {food.value}).Some?
      modifies this`obstacles
      ensures obstacles == Place(draws, count, Cells(snake) + {food.value}).value
    {
      ghost var taken := Cells(snake) + {food.value};
      ghost var whole := Place(draws, count, taken);
      obstacles := [];
      var pos: nat := 0;
      for i := 0 to count
        invariant pos <= |draws| && |obstacles| == i
        invariant whole == PlaceFrom(draws, pos, count - i, obstacles, taken)
      {
        PlaceFromStep(draws, pos, count - i, obstacles, taken);
        var obstacle;
        obstacle, pos := DrawObstacle(draws, pos);
        obstacles := obstacles + [obstacle];
      }
    }

    /**
     * One obstacle's retry loop: draws from index `from` on until a cell is
     * off the snake, off the obstacles so far and off the food; gives that
     * cell and the index after it.
     */
    method DrawObstacle(draws: seq<Cell>, from: nat) returns (obstacle: Cell, next: nat)
      requires food.Some?
      requires FirstFreeFrom(draws, from, Cells(snake) + {food.value} + Cells(obstacles)).Some?
      ensures var k := FirstFreeFrom(draws, from, Cells(snake) + {food.value} + Cells(obstacles)).value;
              obstacle == draws[k] && next == k + 1
      ensures obstacle !in snake && obstacle !in obstacles && obstacle != food.value
    {
      ghost var taken := Cells(snake) + {food.value} + Cells(obstacles);
      FirstFreeIsFirst(draws, from, taken);
      ghost var k := FirstFreeFrom(draws, from, taken).value;
      var validPosition := false;
      next := from;
      obstacle := draws[next];
      while !validPosition
        invariant from <= next <= k + 1
        invariant !validPosition ==> next <= k
        invariant validPosition ==> next == k + 1 && obstacle == draws[k]
        decreases k + 1 - next
      {
        obstacle := draws[next];
        var occupied := IsPositionOccupied(obstacle.x, obstacle.y);
        validPosition := !occupied && obstacle != food.value;
        InCells(obstacle, snake);
        InCells(obstacle, obstacles);
        next := next + 1;
      }
      InCells(obstacle, snake);
      InCells(obstacle, obstacles);
    }

    /** The first arrow key starts the game; later calls do nothing. */
    method StartGame()
      modifies this`gameStarted
      ensures gameStarted
    {
      if gameStarted {
        return;
      }
      gameStarted := true;
    }

    /**
     * One tick: commit the buffered direction, compute the new head, end the
     * game on a wall, a segment of the snake as it stands (tail included) or
     * an obstacle, in that order; otherwise move, growing by the head and
     * regenerating the food when the head lands on it.
     */
    method GameLoop(foodDraws: seq<Cell>) returns (outcome: TickOutcome)
      requires Valid()
      requires AllInBounds(foodDraws, gridSize)
      requires !isPaused && NextHead() == food.value
               ==> FirstFreeFrom(foodDraws, 0, Cells([NextHead()] + snake) + Cells(obstacles)).Some?
      modifies this
      ensures Valid()
      ensures outcome == Skipped <==> old(isPaused)
      ensures old(isPaused) ==> unchanged(this)
      ensures !old(isPaused) ==> direction == old(nextDirection)
      ensures nextDirection == old(nextDirection) && obstacles == old(obstacles)
      ensures isPaused == old(isPaused) && gameStarted == old(gameStarted)
      ensures gameTime == old(gameTime) && gridSize == old(gridSize)
      ensures outcome == HitWall <==> !old(isPaused) && !InBounds(old(NextHead()), gridSize)
      ensures outcome == HitSelf <==>
                !old(isPaused) && InBounds(old(NextHead()), gridSize) && old(NextHead()) in old(snake)
      ensures outcome == HitObstacle <==>
                !old(isPaused) && InBounds(old(NextHead()), gridSize) && old(NextHead()) !in old(snake)
                && old(NextHead()) in obstacles
      ensures outcome == Grew <==>
                !old(isPaused) && InBounds(old(NextHead()), gridSize) && old(NextHead()) !in old(snake)
                && old(NextHead()) !in obstacles && old(NextHead()) == old(food).value
      ensures outcome.EndsGame() || outcome == Skipped ==>
                snake == old(snake) && food == old(food) && score == old(score) && foodEaten == old(foodEaten)
      ensures outcome == Grew ==>
                && snake == [old(NextHead())] + old(snake)
                && score == old(score) + 10 && foodEaten == old(foodEaten) + 1
                && food == Some(foodDraws[FirstFreeFrom(foodDraws, 0, Cells(snake) + Cells(obstacles)).value])
      ensures outcome == Moved ==>
                && snake == [old(NextHead())] + old(snake)[..|old(snake)| - 1]
                && food == old(food) && score == old(score) && foodEaten == old(foodEaten)
      ensures outcome == Moved || outcome == Grew ==> Aligned()
    {
      if isPaused {
        return Skipped;
      }

      direction := nextDirection;

      var head := Step(snake[0], direction);

      if head.x < 0 || head.x >= gridSize || head.y < 0 || head.y >= gridSize {
        return HitWall;
      }

      for i := 0 to |snake|
        invariant forall k :: 0 <= k < i ==> snake[k] != head
      {
        if snake[i].x == head.x && snake[i].y == head.y {
          return HitSelf;
        }
      }

      for i := 0 to |obstacles|
        invariant forall k :: 0 <= k < i ==> obstacles[k] != head
      {
        if obstacles[i].x == head.x && obstacles[i].y == head.y {
          return HitObstacle;
        }
      }

      StepBack(snake[0], direction);
      outcome := Advance(head, foodDraws);
    }

    /**
     * The end of a tick that hit nothing: the head goes on the front; on food
     * the score and the food count go up and new food is placed, otherwise
     * the tail is dropped.
     */
    method Advance(head: Cell, foodDraws: seq<Cell>) returns (outcome: TickOutcome)
      requires BoardOk(gridSize, snake, food, obstacles)
      requires InBounds(head, gridSize) && Adjacent(head, snake[0]) && head !in snake && head !in obstacles
      requires AllInBounds(foodDraws, gridSize)
      requires head == food.value ==> FirstFreeFrom(foodDraws, 0, Cells([head] + snake) + Cells(obstacles)).Some?
      modifies this`snake, this`food, this`score, this`foodEaten
      ensures BoardOk(gridSize, snake, food, obstacles)
      ensures outcome == if head == old(food).value then Grew else Moved
      ensures outcome == Grew ==>
                && snake == [head] + old(snake)
                && score == old(score) + 10 && foodEaten == old(foodEaten) + 1
                && food == Some(foodDraws[FirstFreeFrom(foodDraws, 0, Cells(snake) + Cells(obstacles)).value])
      ensures outcome == Moved ==>
                && snake == [head] + old(snake)[..|old(snake)| - 1]
                && food == old(food) && score == old(score) && foodEaten == old(foodEaten)
    {
      ghost var before := snake;
      ghost var eaten := food;
      snake := [head] + snake;

      if head == food.value {
        score := score + 10;
        foodEaten := foodEaten + 1;
        GenerateFood(foodDraws);
        GrowKeepsBoard(gridSize, before, eaten, obstacles, head, food.value);
        outcome := Grew;
      } else {
        SlideKeepsBoard(gridSize, before, food, obstacles, head);
        snake := snake[..|snake| - 1];
        assert snake == [head] + before[..|before| - 1];
        outcome := Moved;
      }
    }

    /** The pause toggle: flips isPaused and nothing else. */
    method TogglePause()
      modifies this`isPaused
      ensures isPaused == !old(isPaused)
    {
      isPaused := !isPaused;
    }

    /** The one-second timer: counts a second unless paused. */
    method TimerTick()
      modifies this`gameTime
      ensures gameTime == if old(isPaused) then old(gameTime) else old(gameTime) + 1
      ensures old(Valid()) ==> Valid()
    {
      if !isPaused {
        gameTime := gameTime + 1;
      }
    }

    /**
     * The keydown handler: the first arrow key starts the game, an arrow key
     * buffers its direction unless that reverses the committed one, and the
     * space bar toggles pause once the game has started.
     */
    method KeyDown(key: Key)
      modifies this`nextDirection, this`gameStarted, this`isPaused
      ensures nextDirection == Steer(key, direction, old(nextDirection))
      ensures gameStarted == (old(gameStarted) || key.IsArrow())
      ensures isPaused == if key == Space && old(gameStarted) then !old(isPaused) else old(isPaused)
      ensures old(Valid()) ==> Valid()
      ensures old(Aligned()) ==> Aligned()
    {
      if !gameStarted && key.IsArrow() {
        StartGame();
      }

      match key
      case ArrowUp =>
        if direction != Down {
          nextDirection := Up;
        }
      case ArrowDown =>
        if direction != Up {
          nextDirection := Down;
        }
      case ArrowLeft =>
        if direction != Right {
          nextDirection := Left;
        }
      case ArrowRight =>
        if direction != Left {
          nextDirection := Right;
        }
      case Space =>
        if gameStarted {
          TogglePause();
        }
      case Other =>
    }
  }

  /** Pausing twice gives back the pause state it started from. */
  method TogglePauseTwice(g: Game)
    modifies g`isPaused
    ensures g.isPaused == old(g.isPaused)
  {
    g.TogglePause();
    g.TogglePause();
  }

  /** In a valid, aligned session the next tick never moves the head onto the second segment. */
  lemma NoReversal(g: Game)
    requires g.Valid() && g.Aligned()
    ensures g.NextHead() != g.snake[1]
  {
    NeverIntoNeck(g.snake, g.direction, g.nextDirection);
  }

  /**
   * A snake that eats the last free cell leaves no cell for new food: in that
   * state no sequence of draws meets the tick's requirement, because the
   * source's food loop never stops.
   */
  lemma FullBoardStallsTick(g: Game, foodDraws: seq<Cell>)
    requires g.Valid() && !g.isPaused && g.NextHead() == g.food.value
    requires forall c :: InBounds(c, g.gridSize) ==> c in g.snake || c in g.obstacles || c == g.food.value
    requires AllInBounds(foodDraws, g.gridSize)
    ensures FirstFreeFrom(foodDraws, 0, Cells([g.NextHead()] + g.snake) + Cells(g.obstacles)).None?
  {
    var grown := [g.NextHead()] + g.snake;
    var taken := Cells(grown) + Cells(g.obstacles);
    forall c | InBounds(c, g.gridSize) ensures c in taken {
      InCells(c, grown);
      InCells(c, g.obstacles);
    }
    SaturatedNeverFree(foodDraws, 0, taken, g.gridSize);
  }
}
