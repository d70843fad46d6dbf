/**
 The playing field of the snake game: integer grid cells, the four movement
 directions and the fixed grid size (15 x 15 cells).
 */
module Grid {

  /** Number of columns and rows of the grid. */
  const Width: int := 15
  const Height: int := 15

  /** Number of cells on the grid. */
  const Cells: int := Width * Height

  /** A grid cell: column x, row y (row 0 is the top row). */
  datatype Point = Point(x: int, y: int)

  datatype Direction = Up | Down | Left | Right

  /** The cell lies on the grid: 0 <= x < Width and 0 <= y < Height. */
  predicate InBounds(p: Point) {
    0 <= p.x < Width && 0 <= p.y < Height
  }

  /** The direction that undoes `d` (the 180-degree reversal of `d`). */
  function Opposite(d: Direction): (o: Direction)
    ensures o != d
  {
    match d
    case Up => Down
    case Down => Up
    case Left => Right
    case Right => Left
  }

  lemma OppositeIsInvolution(d: Direction)
    ensures Opposite(Opposite(d)) == d
  {
  }

  /** Two cells are adjacent when they share an edge. */
  predicate Adjacent(p: Point, q: Point) {
    (p.x == q.x && (p.y - q.y == 1 || q.y - p.y == 1)) ||
    (p.y == q.y && (p.x - q.x == 1 || q.x - p.x == 1))
  }

  /** The cell one step from `p` in direction `d`; rows grow downwards. */
  function Move(p: Point, d: Direction): (q: Point)
    ensures Adjacent(p, q)
  {
    match d
    case Up => p.(y := p.y - 1)
    case Down => p.(y := p.y + 1)
    case Left => p.(x := p.x - 1)
    case Right => p.(x := p.x + 1)
  }

  /** Adjacency is exactly "one Move away", in one direction only. */
  lemma AdjacentIsOneMove(p: Point, q: Point)
    ensures Adjacent(p, q) <==> exists d :: Move(p, d) == q
  {
    if Adjacent(p, q) {
      var d := if q.y == p.y - 1 then Up
               else if q.y == p.y + 1 then Down
               else if q.x == p.x - 1 then Left
               else Right;
      assert Move(p, d) == q;
    }
  }

  /** Moving in direction `e` after `d` returns to the start exactly when `e` reverses `d`. */
  lemma MoveBack(p: Point, d: Direction, e: Direction)
    ensures Move(Move(p, d), e) == p <==> e == Opposite(d)
  {
  }
}
