/** Small boards whose next generations are known, showing the rule and the hard edges of the board. */
module Patterns {
  import opened Rules

  /** The width by height board whose live cells are exactly those satisfying `live`. */
  function FromPred(width: nat, height: nat, live: (int, int) -> bool): (b: Board)
    ensures b.Wf() && b.width == width && b.height == height
    ensures forall x, y :: InBounds(width, height, x, y) ==> (b.cells[x][y] <==> live(x, y))
  {
    Board(width, height,
      seq(width, x requires 0 <= x < width =>
        seq(height, y requires 0 <= y < height => live(x, y))))
  }

  function LiveIf(width: nat, height: nat, live: (int, int) -> bool, u: int, v: int): nat {
    if InBounds(width, height, u, v) && live(u, v) then 1 else 0
  }

  /** The live neighbours of (x, y) on FromPred(width, height, live), read off `live` directly rather
      than off the board, so that the solver can evaluate it on concrete patterns without expanding
      the board's sequences. CountIfAgrees shows it is LiveNeighbourCount. */
  function CountIf(width: nat, height: nat, live: (int, int) -> bool, x: int, y: int): nat {
    LiveIf(width, height, live, x - 1, y - 1) + LiveIf(width, height, live, x - 1, y) +
    LiveIf(width, height, live, x - 1, y + 1) + LiveIf(width, height, live, x, y - 1) +
    LiveIf(width, height, live, x, y + 1) + LiveIf(width, height, live, x + 1, y - 1) +
    LiveIf(width, height, live, x + 1, y) + LiveIf(width, height, live, x + 1, y + 1)
  }

  /** Counting on the predicate is counting on the board it builds. */
  lemma CountIfAgrees(width: nat, height: nat, live: (int, int) -> bool, x: int, y: int)
    ensures CountIf(width, height, live, x, y) == LiveNeighbourCount(FromPred(width, height, live), x, y)
  {
    var b := FromPred(width, height, live);
    assert forall u, v :: Live(b, u, v) == LiveIf(width, height, live, u, v);
  }

  /** If the rule, applied to the cells picked out by `live`, picks out exactly those of `next`, then
      the next generation of the first board is the second. */
  lemma NextOfPred(width: nat, height: nat, live: (int, int) -> bool, next: (int, int) -> bool)
    requires forall x, y :: InBounds(width, height, x, y) ==>
               next(x, y) == Rule(live(x, y), CountIf(width, height, live, x, y))
    ensures Next(FromPred(width, height, live)) == FromPred(width, height, next)
  {
    var b, r := FromPred(width, height, live), FromPred(width, height, next);
    forall x, y | InBounds(width, height, x, y)
      ensures Next(b).cells[x][y] == r.cells[x][y]
    {
      CountIfAgrees(width, height, live, x, y);
    }
    SameCells(Next(b), r);
  }

  predicate Centre(x: int, y: int) { x == 1 && y == 1 }
  /** (1, 2), (2, 2), (3, 2) */
  predicate RowOfThree(x: int, y: int) { y == 2 && 1 <= x <= 3 }
  /** (2, 1), (2, 2), (2, 3) */
  predicate ColumnOfThree(x: int, y: int) { x == 2 && 1 <= y <= 3 }
  /** (1, 0), (2, 0), (3, 0) */
  predicate TopRowOfThree(x: int, y: int) { y == 0 && 1 <= x <= 3 }
  /** (2, 0), (2, 1) */
  predicate TopPair(x: int, y: int) { x == 2 && 0 <= y <= 1 }
  predicate Everywhere(x: int, y: int) { true }
  predicate Nowhere(x: int, y: int) { false }

  /** A single live cell in the middle of a 3 by 3 board dies and nothing is born. */
  lemma LoneCellDies()
    ensures Next(FromPred(3, 3, Centre)) == Empty(3, 3)
  {
    NextOfPred(3, 3, Centre, Nowhere);
    SameCells(FromPred(3, 3, Nowhere), Empty(3, 3));
  }

  /** On a 5 by 5 board a horizontal row of three becomes a vertical column of three ... */
  lemma BlinkerTurns()
    ensures Next(FromPred(5, 5, RowOfThree)) == FromPred(5, 5, ColumnOfThree)
  {
    NextOfPred(5, 5, RowOfThree, ColumnOfThree);
  }

  /** ... and the column turns back into the row, so the blinker repeats every two generations. */
  lemma BlinkerTurnsBack()
    ensures Next(FromPred(5, 5, ColumnOfThree)) == FromPred(5, 5, RowOfThree)
  {
    NextOfPred(5, 5, ColumnOfThree, RowOfThree);
  }

  /** A row of three along the top edge only grows downward: nothing is born on the bottom row, as it
      would be if the board wrapped round. */
  lemma EdgeRowDoesNotWrap()
    ensures Next(FromPred(5, 5, TopRowOfThree)) == FromPred(5, 5, TopPair)
  {
    NextOfPred(5, 5, TopRowOfThree, TopPair);
  }

  /** A full 2 by 2 board is still: each cell has exactly three neighbours, where a wrapping board
      would give it eight and kill it. */
  lemma FullSquareIsStill()
    ensures Next(FromPred(2, 2, Everywhere)) == FromPred(2, 2, Everywhere)
  {
    NextOfPred(2, 2, Everywhere, Everywhere);
  }
}
