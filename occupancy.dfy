/**
 Counting cells: how many grid cells a sequence of cells can occupy, and when
 a free cell is left. Food placement draws cells until it finds a free one, so
 whether such a cell exists decides whether placement can succeed at all.
 */
module Occupancy {
  import opened Grid

  /** No cell occurs twice in `s`. */
  predicate Distinct(s: seq<Point>) {
    forall i, j :: 0 <= i < j < |s| ==> s[i] != s[j]
  }

  predicate AllInBounds(s: seq<Point>) {
    forall i :: 0 <= i < |s| ==> InBounds(s[i])
  }

  /** Some cell of the grid is not in `s`. */
  ghost predicate HasFreeCell(s: seq<Point>) {
    exists p :: InBounds(p) && p !in s
  }

  /** The set of cells occurring in `s`. */
  function Elems(s: seq<Point>): (r: set<Point>)
    ensures forall p :: p in r <==> p in s
    ensures |r| <= |s|
    ensures Distinct(s) ==> |r| == |s|
    decreases |s|
  {
    if s == [] then {}
    else
      var rest := Elems(s[1..]);
      assert forall p :: p in s <==> p == s[0] || p in s[1..];
      {s[0]} + rest
  }

  /** Row-major position of a cell: cells of the grid are numbered 0 .. Cells-1. */
  function Index(p: Point): int {
    p.y * Width + p.x
  }

  /** The cell with row-major position `i`. */
  function CellAt(i: nat): (p: Point)
    requires i < Cells
    ensures InBounds(p) && Index(p) == i
  {
    Point(i % Width, i / Width)
  }

  lemma IndexDetermines(p: Point, q: Point)
    requires InBounds(p) && InBounds(q) && Index(p) == Index(q)
    ensures p == q
  {
  }

  /** The cells whose position is below `k`. */
  function CellsBelow(k: nat): (r: set<Point>)
    requires k <= Cells
    ensures |r| == k
    ensures forall p :: p in r <==> InBounds(p) && Index(p) < k
  {
    if k == 0 then {}
    else
      var c := CellAt(k - 1);
      var rest := CellsBelow(k - 1);
      forall p | InBounds(p) && Index(p) == k - 1
        ensures p == c
      {
        IndexDetermines(p, c);
      }
      rest + {c}
  }

  /** The whole grid as a set. */
  function AllCells(): (r: set<Point>)
    ensures |r| == Cells
    ensures forall p :: p in r <==> InBounds(p)
  {
    CellsBelow(Cells)
  }

  lemma SubsetCard(a: set<Point>, b: set<Point>)
    requires a <= b
    ensures |b| == |a| + |b - a|
  {
  }

  /** A sequence shorter than the grid leaves a cell free. */
  lemma FreeCellExists(s: seq<Point>)
    requires |s| < Cells
    ensures HasFreeCell(s)
  {
    var occupied := Elems(s) * AllCells();
    SubsetCard(occupied, AllCells());
    SubsetCard(occupied, Elems(s));
    var p :| p in AllCells() - occupied;
    assert InBounds(p) && p !in s;
  }

  /** Distinct cells of the grid are at most as many as the grid has. */
  lemma SnakeFitsGrid(s: seq<Point>)
    requires Distinct(s) && AllInBounds(s)
    ensures |s| <= Cells
  {
    SubsetCard(Elems(s), AllCells());
  }

  /** A sequence of Cells distinct grid cells covers every cell. */
  lemma FullSnakeCoversGrid(s: seq<Point>)
    requires Distinct(s) && AllInBounds(s) && |s| == Cells
    ensures forall p :: InBounds(p) ==> p in s
  {
    SubsetCard(Elems(s), AllCells());
    assert AllCells() - Elems(s) == {};
  }

  /** For distinct grid cells, a free cell is left exactly when fewer than Cells are occupied. */
  lemma FreeCellIff(s: seq<Point>)
    requires Distinct(s) && AllInBounds(s)
    ensures HasFreeCell(s) <==> |s| < Cells
  {
    SnakeFitsGrid(s);
    if |s| < Cells {
      FreeCellExists(s);
    } else {
      FullSnakeCoversGrid(s);
    }
  }
}
