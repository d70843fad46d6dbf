/**
 The rules of the game as pure definitions over a snapshot of the game state:
 the state invariant, one tick of the game as a relation between the state
 before and after (a relation because new food is placed on a cell chosen at
 random), steering, reset and the high-score rule, with the properties that
 the game keeps.
 */
module Rules {
  import opened Grid
  import opened Occupancy

  /** Points added to the score for each food eaten. */
  const FoodScore: int := 10

  /** The cell a new game starts on: column Width / 2 (rounded down), row 8. */
  const Start: Point := Point(Width / 2, 8)

  /**
   A snapshot of the game: the snake body (head first), the committed and the
   queued direction, the food cell, the score, the game-over flag and the
   high score.
   */
  datatype GameState = GameState(
    snake: seq<Point>,
    direction: Direction,
    nextDirection: Direction,
    food: Point,
    score: int,
    isGameOver: bool,
    highScore: int)

  /** Each segment is next to the one after it. */
  predicate Connected(s: seq<Point>) {
    forall i :: 0 < i < |s| ==> Adjacent(s[i - 1], s[i])
  }

  /** A snake body: non-empty, on the grid, never crossing itself, and contiguous. */
  predicate WellFormed(s: seq<Point>) {
    |s| > 0 && AllInBounds(s) && Distinct(s) && Connected(s)
  }

  /**
   The state invariant. The food is off the snake, except once the snake has
   filled the whole grid and the game has ended; the queued direction never
   reverses the committed one; while the game runs, the head is one step from
   the neck in the committed direction; and every segment beyond the first
   was paid for by one food.
   */
  ghost predicate Inv(g: GameState) {
    WellFormed(g.snake) &&
    InBounds(g.food) &&
    (g.food !in g.snake || (g.isGameOver && |g.snake| == Cells)) &&
    g.nextDirection != Opposite(g.direction) &&
    (!g.isGameOver && |g.snake| >= 2 ==> g.snake[0] == Move(g.snake[1], g.direction)) &&
    g.score == FoodScore * (|g.snake| - 1)
  }

  /** Whether `p` is a segment of `s`, tested segment by segment from the head. */
  function IsOnSnake(s: seq<Point>, p: Point): (b: bool)
    ensures b <==> p in s
  {
    if s == [] then false
    else s[0] == p || IsOnSnake(s[1..], p)
  }

  /** Moving the head to `h` ends the game: `h` is off the grid or on a current segment. */
  predicate Collides(s: seq<Point>, h: Point) {
    !InBounds(h) || IsOnSnake(s, h)
  }

  /** The body after a move without eating: the new head in front, the tail cell dropped. */
  function Slither(s: seq<Point>, h: Point): (r: seq<Point>)
    requires |s| > 0
    ensures |r| == |s| && r[0] == h
    ensures forall i :: 0 < i < |r| ==> r[i] == s[i - 1]
  {
    [h] + s[..|s| - 1]
  }

  /** The initial state; the high score is the one stored from earlier sessions. */
  function Initial(storedHighScore: int): (g: GameState)
    ensures Inv(g) && g.highScore == storedHighScore
    ensures g.snake == [Start] && !g.isGameOver && g.score == 0
  {
    GameState([Start], Right, Right, Point(5, 5), 0, false, storedHighScore)
  }

  /**
   One tick from `g` to `g'`. A finished game does not change. Otherwise the
   queued direction is committed and the head moves one cell that way; leaving
   the grid or entering any current segment (the tail included) ends the game
   with body, food and score untouched. Entering the food grows the snake by
   the new head and scores; new food goes on any grid cell off the grown body,
   and when the grown body fills the grid, where no such cell exists, the game
   ends. Any other move shifts the body one cell forward.
   */
  ghost predicate Ticked(g: GameState, g': GameState)
    requires |g.snake| > 0
  {
    if g.isGameOver then g' == g
    else
      var h := Move(g.snake[0], g.nextDirection);
      var c := g.(direction := g.nextDirection);
      if Collides(g.snake, h) then
        g' == c.(isGameOver := true)
      else if h != g.food then
        g' == c.(snake := Slither(g.snake, h))
      else if |g.snake| + 1 < Cells then
        g' == c.(snake := [h] + g.snake, score := g.score + FoodScore, food := g'.food) &&
        InBounds(g'.food) && g'.food !in g'.snake
      else
        g' == c.(snake := [h] + g.snake, score := g.score + FoodScore, isGameOver := true)
  }

  /**
   The queued direction after a request for `d`, given the committed direction
   `committed` and the currently queued `queued`: a reversal of the committed
   direction is ignored, anything else replaces the queue.
   */
  function Steer(committed: Direction, queued: Direction, d: Direction): (r: Direction)
    ensures r == d || r == queued
    ensures r == d <==> d != Opposite(committed) || d == queued
  {
    if d == Opposite(committed) then queued else d
  }

  /** `g'` is a fresh game after a reset of `g`: only the high score carries over. */
  ghost predicate IsReset(g: GameState, g': GameState) {
    g'.snake == [Start] && g'.direction == Right && g'.nextDirection == Right &&
    g'.score == 0 && !g'.isGameOver && g'.highScore == g.highScore &&
    InBounds(g'.food) && g'.food !in g'.snake
  }

  /** The high score after the game-over check: a finished game's larger score replaces it. */
  function RecordHigh(isGameOver: bool, score: int, highScore: int): (h: int)
    ensures h >= highScore
    ensures isGameOver ==> h >= score
    ensures h == highScore || (isGameOver && h == score)
  {
    if isGameOver && score > highScore then score else highScore
  }

  // ---------------------------------------------------------------- lemmas

  /** Recording the high score twice changes nothing the second time. */
  lemma RecordHighSettles(isGameOver: bool, score: int, highScore: int)
    ensures var h := RecordHigh(isGameOver, score, highScore);
            RecordHigh(isGameOver, score, h) == h
  {
  }

  /** A reversal never gets queued, so the snake never turns back onto its neck. */
  lemma SteerKeepsQueueSafe(committed: Direction, queued: Direction, d: Direction)
    requires queued != Opposite(committed)
    ensures Steer(committed, queued, d) != Opposite(committed)
  {
  }

  lemma ResetIsValid(g: GameState, g': GameState)
    requires IsReset(g, g')
    ensures Inv(g') && g'.food != g'.snake[0] && |g'.snake| == 1
  {
  }

  /** A reset always has an outcome: some cell is free for the food. */
  lemma ResetTotal(g: GameState)
    ensures exists g' :: IsReset(g, g')
  {
    var g' := GameState([Start], Right, Right, Point(0, 0), 0, false, g.highScore);
    assert IsReset(g, g');
  }

  /** Prepending a fresh neighbouring cell to a snake body yields a snake body. */
  lemma GrowWellFormed(s: seq<Point>, h: Point)
    requires WellFormed(s) && InBounds(h) && h !in s && Adjacent(h, s[0])
    ensures WellFormed([h] + s)
  {
  }

  /** Dropping the tail of a snake body of length two or more yields a snake body. */
  lemma DropTailWellFormed(s: seq<Point>)
    requires WellFormed(s) && |s| >= 2
    ensures WellFormed(s[..|s| - 1])
  {
  }

  lemma SlitherWellFormed(s: seq<Point>, h: Point)
    requires WellFormed(s) && InBounds(h) && h !in s && Adjacent(h, s[0])
    ensures WellFormed(Slither(s, h))
  {
  }

  /** Every tick keeps the invariant. */
  lemma TickPreservesInv(g: GameState, g': GameState)
    requires Inv(g) && Ticked(g, g')
    ensures Inv(g')
  {
    if !g.isGameOver {
      var h := Move(g.snake[0], g.nextDirection);
      if !Collides(g.snake, h) {
        if h != g.food {
          SlitherWellFormed(g.snake, h);
        } else {
          GrowWellFormed(g.snake, h);
          if |g.snake| + 1 >= Cells {
            SnakeFitsGrid([h] + g.snake);
          }
        }
      }
    }
  }

  /** Every valid state has a successor: the food can always be placed. */
  lemma TickTotal(g: GameState)
    requires Inv(g)
    ensures exists g' :: Ticked(g, g')
  {
    if !g.isGameOver {
      var h := Move(g.snake[0], g.nextDirection);
      var c := g.(direction := g.nextDirection);
      if Collides(g.snake, h) {
        assert Ticked(g, c.(isGameOver := true));
      } else if h != g.food {
        assert Ticked(g, c.(snake := Slither(g.snake, h)));
      } else if |g.snake| + 1 < Cells {
        var grown := [h] + g.snake;
        FreeCellExists(grown);
        var f :| InBounds(f) && f !in grown;
        assert Ticked(g, c.(snake := grown, score := g.score + FoodScore, food := f));
      } else {
        assert Ticked(g, c.(snake := [h] + g.snake, score := g.score + FoodScore, isGameOver := true));
      }
    } else {
      assert Ticked(g, g);
    }
  }

  /** Apart from where new food lands, a tick has one outcome. */
  lemma TickDeterminedUpToFood(g: GameState, g1: GameState, g2: GameState)
    requires |g.snake| > 0 && Ticked(g, g1) && Ticked(g, g2)
    ensures g1.(food := g2.food) == g2
    ensures g1.food != g2.food ==> g1.snake == g2.snake == [g1.snake[0]] + g.snake
  {
  }

  /** A running game commits the queued direction on every tick, and nothing changes the high score. */
  lemma TickCommitsDirection(g: GameState, g': GameState)
    requires |g.snake| > 0 && Ticked(g, g')
    ensures g'.highScore == g.highScore && g'.nextDirection == g.nextDirection
    ensures !g.isGameOver ==> g'.direction == g.nextDirection
  {
  }

  /** A collision ends the game and leaves body, food and score as they were. */
  lemma TickCollides(g: GameState, g': GameState)
    requires |g.snake| > 0 && !g.isGameOver && Ticked(g, g')
    requires !InBounds(Move(g.snake[0], g.nextDirection)) || Move(g.snake[0], g.nextDirection) in g.snake
    ensures g'.isGameOver
    ensures g'.snake == g.snake && g'.food == g.food && g'.score == g.score
  {
  }

  /** A move without food keeps length, food and score, and the tail cell moves on. */
  lemma TickSlithers(g: GameState, g': GameState)
    requires Inv(g) && !g.isGameOver && Ticked(g, g') && !g'.isGameOver
    requires Move(g.snake[0], g.nextDirection) != g.food
    ensures |g'.snake| == |g.snake| && g'.food == g.food && g'.score == g.score
    ensures g'.snake[0] == Move(g.snake[0], g.nextDirection)
    ensures g'.snake[|g'.snake| - 1] != g.snake[|g.snake| - 1]
  {
    var n := |g.snake|;
    if n >= 2 {
      assert g'.snake[n - 1] == g.snake[n - 2];
    }
  }

  /** Eating scores exactly FoodScore, grows the snake by its new head, and puts new food on a free cell. */
  lemma TickEats(g: GameState, g': GameState)
    requires Inv(g) && !g.isGameOver && Ticked(g, g') && !g'.isGameOver
    requires Move(g.snake[0], g.nextDirection) == g.food
    ensures g'.score == g.score + FoodScore
    ensures g'.snake == [g.food] + g.snake
    ensures InBounds(g'.food) && g'.food !in g'.snake
  {
  }

  /** Because reversals are never queued, a running snake never moves into its own neck. */
  lemma NeverReversesIntoNeck(g: GameState)
    requires Inv(g) && !g.isGameOver && |g.snake| >= 2
    ensures Move(g.snake[0], g.nextDirection) != g.snake[1]
  {
  }

  /**
   A snake one cell short of the grid that eats the food fills the grid:
   every grid cell is then a segment, so no random cell is ever free.
   */
  lemma EatingLastCellFillsGrid(g: GameState)
    requires Inv(g) && !g.isGameOver && |g.snake| == Cells - 1
    requires Move(g.snake[0], g.nextDirection) == g.food
    ensures forall p :: InBounds(p) ==> p in [g.food] + g.snake
  {
    var grown := [g.food] + g.snake;
    GrowWellFormed(g.snake, g.food);
    FullSnakeCoversGrid(grown);
  }
}
