/** The pure rule of Conway's Game of Life on a bounded, non-wrapping board.
    A board is stored column-major, `cells[x][y]`, the way the game keeps its grid. */
module Rules {

  datatype Board = Board(width: nat, height: nat, cells: seq<seq<bool>>)
  {
    /** Every column has exactly `height` cells. */
    predicate Wf() {
      |cells| == width && forall x :: 0 <= x < width ==> |cells[x]| == height
    }
  }

  predicate InBounds(width: int, height: int, x: int, y: int) {
    0 <= x < width && 0 <= y < height
  }

  /** (u, v) is one of the eight cells around (x, y). */
  predicate Adjacent(x: int, y: int, u: int, v: int) {
    -1 <= u - x <= 1 && -1 <= v - y <= 1 && (u != x || v != y)
  }

  /** 1 when (u, v) lies on the board and is alive; cells off the board count as dead. */
  function Live(b: Board, u: int, v: int): nat
    requires b.Wf()
  {
    if InBounds(b.width, b.height, u, v) && b.cells[u][v] then 1 else 0
  }

  /** The number of live cells among the eight around (x, y), with nothing wrapping round an edge. */
  function LiveNeighbourCount(b: Board, x: int, y: int): (n: nat)
    requires b.Wf()
    ensures n <= 8
  {
    Live(b, x - 1, y - 1) + Live(b, x - 1, y) + Live(b, x - 1, y + 1) +
    Live(b, x, y - 1) + Live(b, x, y + 1) +
    Live(b, x + 1, y - 1) + Live(b, x + 1, y) + Live(b, x + 1, y + 1)
  }

  /** How many of the columns (or rows) x - 1, x, x + 1 lie in [0, n). */
  function Span(n: int, x: int): nat {
    (if 0 <= x - 1 < n then 1 else 0) + (if 0 <= x < n then 1 else 0) + (if 0 <= x + 1 < n then 1 else 0)
  }

  /** On a board at least 2 by 2, a corner cell has 3 neighbours, another edge cell 5 and an
      interior cell 8. */
  lemma NeighbourhoodSizes(width: int, height: int, x: int, y: int)
    requires width >= 2 && height >= 2 && InBounds(width, height, x, y)
    ensures var edgeX, edgeY := x == 0 || x == width - 1, y == 0 || y == height - 1;
            Span(width, x) * Span(height, y) - 1 ==
              if edgeX && edgeY then 3 else if edgeX || edgeY then 5 else 8
  {
    assert Span(width, x) == if x == 0 || x == width - 1 then 2 else 3;
    assert Span(height, y) == if y == 0 || y == height - 1 then 2 else 3;
  }

  /** Survival on 2 or 3 live neighbours, birth on exactly 3. */
  predicate Rule(alive: bool, n: int): (next: bool)
    ensures next <==> n == 3 || (alive && n == 2)
  {
    if alive then n == 2 || n == 3 else n == 3
  }

  /** The state of (x, y) in the generation after b. */
  function NextCell(b: Board, x: int, y: int): bool
    requires b.Wf() && InBounds(b.width, b.height, x, y)
  {
    Rule(b.cells[x][y], LiveNeighbourCount(b, x, y))
  }

  /** The next generation: every cell decided from the previous generation only. */
  function Next(b: Board): (r: Board)
    requires b.Wf()
    ensures r.Wf() && r.width == b.width && r.height == b.height
  {
    Board(b.width, b.height,
      seq(b.width, x requires 0 <= x < b.width =>
        seq(b.height, y requires 0 <= y < b.height => NextCell(b, x, y))))
  }

  /** A board of the given size with every cell dead. */
  function Empty(width: nat, height: nat): (r: Board)
    ensures r.Wf() && r.width == width && r.height == height
    ensures forall x, y :: InBounds(width, height, x, y) ==> !r.cells[x][y]
  {
    Board(width, height, seq(width, _ => seq(height, _ => false)))
  }

  /** The board with the one cell (x, y) flipped. */
  function Toggle(b: Board, x: int, y: int): (r: Board)
    requires b.Wf() && InBounds(b.width, b.height, x, y)
    ensures r.Wf() && r.width == b.width && r.height == b.height
    ensures r.cells[x][y] == !b.cells[x][y]
    ensures forall u, v :: InBounds(b.width, b.height, u, v) && (u != x || v != y) ==>
              r.cells[u][v] == b.cells[u][v]
  {
    b.(cells := b.cells[x := b.cells[x][y := !b.cells[x][y]]])
  }

  /** Two boards of the same size that agree on every cell are the same board. */
  lemma {:induction false} SameCells(b1: Board, b2: Board)
    requires b1.Wf() && b2.Wf() && b1.width == b2.width && b1.height == b2.height
    requires forall x, y :: InBounds(b1.width, b1.height, x, y) ==> b1.cells[x][y] == b2.cells[x][y]
    ensures b1 == b2
  {
    forall x | 0 <= x < b1.width
      ensures b1.cells[x] == b2.cells[x]
    {
      assert forall y :: 0 <= y < b1.height ==> b1.cells[x][y] == b2.cells[x][y];
    }
  }

  /** Flipping a cell twice gives back the board it started from. */
  lemma ToggleTwice(b: Board, x: int, y: int)
    requires b.Wf() && InBounds(b.width, b.height, x, y)
    ensures Toggle(Toggle(b, x, y), x, y) == b
  {
    SameCells(Toggle(Toggle(b, x, y), x, y), b);
  }

  /** An empty board stays empty. */
  lemma EmptyIsStill(width: nat, height: nat)
    ensures Next(Empty(width, height)) == Empty(width, height)
  {
    var e := Empty(width, height);
    forall x, y | InBounds(width, height, x, y)
      ensures Next(e).cells[x][y] == e.cells[x][y]
    {
      assert LiveNeighbourCount(e, x, y) == 0;
    }
    SameCells(Next(e), e);
  }

  // The tick visits the cells column by column, (0, 0), (0, 1), ..., (1, 0), ...

  /** (u, v) comes before (x, y) in that scan order. */
  predicate ScannedBefore(u: int, v: int, x: int, y: int) {
    u < x || (u == x && v < y)
  }

  function LiveScanned(b: Board, u: int, v: int, x: int, y: int): nat
    requires b.Wf()
  {
    if ScannedBefore(u, v, x, y) then Live(b, u, v) else 0
  }

  /** The live neighbours of (a, c) among the cells scanned before (x, y). */
  function ScannedNeighbourCount(b: Board, a: int, c: int, x: int, y: int): (n: nat)
    requires b.Wf()
    ensures n <= LiveNeighbourCount(b, a, c)
  {
    LiveScanned(b, a - 1, c - 1, x, y) + LiveScanned(b, a - 1, c, x, y) + LiveScanned(b, a - 1, c + 1, x, y) +
    LiveScanned(b, a, c - 1, x, y) + LiveScanned(b, a, c + 1, x, y) +
    LiveScanned(b, a + 1, c - 1, x, y) + LiveScanned(b, a + 1, c, x, y) + LiveScanned(b, a + 1, c + 1, x, y)
  }

  /** Scanning one more cell (x, y) adds one exactly when it is alive and next to (a, c). */
  lemma ScanStep(b: Board, a: int, c: int, x: int, y: int)
    requires b.Wf() && InBounds(b.width, b.height, x, y)
    ensures ScannedNeighbourCount(b, a, c, x, y + 1) ==
            ScannedNeighbourCount(b, a, c, x, y) + (if b.cells[x][y] && Adjacent(x, y, a, c) then 1 else 0)
  {
  }

  /** Finishing column x is the same as starting column x + 1. */
  lemma ScanNextColumn(b: Board, a: int, c: int, x: int)
    requires b.Wf()
    ensures ScannedNeighbourCount(b, a, c, x, b.height) == ScannedNeighbourCount(b, a, c, x + 1, 0)
  {
  }

  /** Nothing is counted before the scan starts, and everything once it has passed the last column. */
  lemma ScanEnds(b: Board, a: int, c: int)
    requires b.Wf()
    ensures ScannedNeighbourCount(b, a, c, 0, 0) == 0
    ensures ScannedNeighbourCount(b, a, c, b.width, 0) == LiveNeighbourCount(b, a, c)
  {
  }
}
