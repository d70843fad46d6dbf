/**
 The game engine as the component keeps it: mutable fields for the snake
 body, the committed and queued direction, the food, the score, the
 game-over flag and the high score, and the operations that overwrite them
 in place. Each operation is proved against the rules of module Rules.
 */
module Engine {
  import opened Grid
  import opened Occupancy
  import opened Rules

  datatype Option<T> = None | Some(value: T)

  /**
   Rejection sampling over a stream of random grid cells: the first drawn
   cell that is not a segment of `s`, or None when every draw lands on the
   snake (sampling would then have to go on drawing).
   */
  method SampleFood(s: seq<Point>, draws: seq<Point>) returns (food: Option<Point>)
    requires forall i :: 0 <= i < |draws| ==> InBounds(draws[i])
    ensures food.Some? ==> InBounds(food.value) && food.value !in s
    ensures food.Some? ==> exists k :: 0 <= k < |draws| && draws[k] == food.value &&
                                       forall i :: 0 <= i < k ==> draws[i] in s
    ensures food.None? <==> forall i :: 0 <= i < |draws| ==> draws[i] in s
  {
    var n := 0;
    while n < |draws|
      invariant 0 <= n <= |draws|
      invariant forall i :: 0 <= i < n ==> draws[i] in s
    {
      var newFood := draws[n];
      var isOnSnake := IsOnSnake(s, newFood);
      if !isOnSnake {
        return Some(newFood);
      }
      n := n + 1;
    }
    return None;
  }

  /** Food placement: some grid cell off the snake, whichever one the random draws settle on. */
  method GenerateFood(s: seq<Point>) returns (food: Point)
    requires HasFreeCell(s)
    ensures InBounds(food) && food !in s
  {
    food :| InBounds(food) && food !in s;
  }

  class Game {
    var snake: seq<Point>
    var direction: Direction
    var nextDirection: Direction
    var food: Point
    var score: int
    var isGameOver: bool
    var highScore: int

    /** The current state as a value. */
    ghost function Snapshot(): GameState
      reads this
    {
      GameState(snake, direction, nextDirection, food, score, isGameOver, highScore)
    }

    ghost predicate Valid()
      reads this
    {
      Inv(Snapshot())
    }

    /** A new game: the high score is the one stored from earlier sessions. */
    constructor (storedHighScore: int)
      ensures Valid()
      ensures Snapshot() == Initial(storedHighScore)
    {
      snake := [Point(Width / 2, 8)];
      direction := Right;
      nextDirection := Right;
      food := Point(5, 5);
      score := 0;
      isGameOver := false;
      highScore := storedHighScore;
    }

    /** Queue a direction request; a reversal of the committed direction is ignored. */
    method HandleControl(d: Direction)
      requires Valid()
      modifies this
      ensures Valid()
      ensures Snapshot() == old(Snapshot()).(nextDirection :=
        if old(isGameOver) then old(nextDirection)
        else Steer(direction, old(nextDirection), d))
    {
      if isGameOver {
        return;
      }
      if d == Up && direction != Down { nextDirection := Up; }
      if d == Down && direction != Up { nextDirection := Down; }
      if d == Left && direction != Right { nextDirection := Left; }
      if d == Right && direction != Left { nextDirection := Right; }
      SteerKeepsQueueSafe(direction, old(nextDirection), d);
    }

    /** One tick of the game. */
    method Update()
      requires Valid()
      modifies this
      ensures Valid()
      ensures Ticked(old(Snapshot()), Snapshot())
    {
      if isGameOver {
        return;
      }
      ghost var g := Snapshot();
      direction := nextDirection;
      var head := snake[0];
      var newHead := head;
      match direction {
        case Up => newHead := newHead.(y := newHead.y - 1);
        case Down => newHead := newHead.(y := newHead.y + 1);
        case Left => newHead := newHead.(x := newHead.x - 1);
        case Right => newHead := newHead.(x := newHead.x + 1);
      }
      assert newHead == Move(head, g.nextDirection);

      if newHead.x < 0 || newHead.x >= Width || newHead.y < 0 || newHead.y >= Height ||
         IsOnSnake(snake, newHead)
      {
        isGameOver := true;
        TickPreservesInv(g, Snapshot());
        return;
      }

      var newSnake := [newHead] + snake;
      if newHead == food {
        score := score + FoodScore;
        if |newSnake| < Cells {
          FreeCellExists(newSnake);
          food := GenerateFood(newSnake);
        } else {
          isGameOver := true;
        }
      } else {
        newSnake := newSnake[..|newSnake| - 1];
      }
      snake := newSnake;
      TickPreservesInv(g, Snapshot());
    }

    /** Start over: fresh snake, directions, score and food; the high score stays. */
    method ResetGame()
      modifies this
      ensures Valid()
      ensures IsReset(old(Snapshot()), Snapshot())
    {
      snake := [Point(Width / 2, 8)];
      direction := Right;
      nextDirection := Right;
      assert InBounds(Point(0, 0)) && Point(0, 0) !in snake;
      food := GenerateFood(snake);
      score := 0;
      isGameOver := false;
    }

    /** The game-over check of the high score: a finished game's larger score replaces it. */
    method RecordHighScore()
      modifies this
      ensures Snapshot() == old(Snapshot()).(highScore := RecordHigh(isGameOver, score, old(highScore)))
    {
      if isGameOver && score > highScore {
        highScore := score;
      }
    }
  }

  /** The opening moves of a new game, as a client sees them through the contracts. */
  method OpeningMoves() {
    var game := new Game(0);
    game.HandleControl(Left);
    assert game.nextDirection == Right;
    game.Update();
    assert game.snake == [Point(8, 8)] && game.score == 0 && !game.isGameOver;
    game.HandleControl(Up);
    game.HandleControl(Left);
    // Left is checked against the committed Right, not the queued Up.
    assert game.nextDirection == Up;
    game.Update();
    assert game.snake == [Point(8, 7)] && game.direction == Up;
  }
}
