/** The game object: a column-major grid of cells held in two arrays (alive flags and neighbour
    counters), the two-pass generation step, clicking a cell, and the start/stop timer state. */
module Game {
  import opened Rules
  import Geometry

  datatype Option<T> = None | Some(value: T)

  /** What the game asks the canvas to do with one cell. */
  datatype Paint = Draw(x: int, y: int) | Erase(x: int, y: int)

  /** How a click ends: ignored (left of or above the grid), a cell toggled and repainted, or a cell
      position past the grid's last column or row, where reading the cell fails before anything changes. */
  datatype ClickResult = Ignored | Toggled(paint: Paint) | NoCell

  /** `a && b` on numbers: `a` when `a` is 0, otherwise `b`. */
  function JsAnd(a: int, b: int): int {
    if a == 0 then a else b
  }

  /** The paint that shows cell (x, y) in the given state. */
  function PaintFor(x: int, y: int, alive: bool): Paint {
    if alive then Draw(x, y) else Erase(x, y)
  }

  /** The position of cell (x, y) in the column-major visiting order of a grid `height` rows tall:
      the cells of the x earlier columns, then y more. It is `x * height + y` (ScanIndexIsProduct), but
      written by recursion on x so that the repaint proofs need no non-linear arithmetic. */
  function ScanIndex(height: nat, x: nat, y: nat): nat {
    if x == 0 then y else ScanIndex(height, x - 1, y) + height
  }

  lemma {:induction false} ScanIndexIsProduct(height: nat, x: nat, y: nat)
    ensures ScanIndex(height, x, y) == x * height + y
  {
    if x > 0 {
      ScanIndexIsProduct(height, x - 1, y);
    }
  }

  /** Moving down a column moves along the order one position per row. */
  lemma {:induction false} ScanIndexShift(height: nat, x: nat, y: nat)
    ensures ScanIndex(height, x, y) == ScanIndex(height, x, 0) + y
  {
    if x > 0 {
      ScanIndexShift(height, x - 1, y);
      ScanIndexShift(height, x - 1, 0);
    }
  }

  /** Later columns start later. */
  lemma {:induction false} ScanIndexColumns(height: nat, a: nat, x: nat)
    requires a <= x
    ensures ScanIndex(height, a, 0) <= ScanIndex(height, x, 0)
  {
    if a < x {
      ScanIndexColumns(height, a, x - 1);
    }
  }

  /** Cells visited earlier have smaller positions. */
  lemma ScanIndexOrdered(height: nat, a: nat, c: nat, x: nat, y: nat)
    requires c < height && ScannedBefore(a, c, x, y)
    ensures ScanIndex(height, a, c) < ScanIndex(height, x, y)
  {
    ScanIndexShift(height, a, c);
    ScanIndexShift(height, x, y);
    if a < x {
      ScanIndexColumns(height, a + 1, x);
    }
  }

  /** The repaint of column x of b, top to bottom. */
  function ColumnPaints(b: Rules.Board, x: nat): (r: seq<Paint>)
    requires b.Wf() && x < b.width
    ensures |r| == b.height
  {
    seq(b.height, c requires 0 <= c < b.height => PaintFor(x, c, b.cells[x][c]))
  }

  /** The repaint of the first x columns of b, in the column-major visiting order. */
  function Repaint(b: Rules.Board, x: nat): seq<Paint>
    requires b.Wf() && x <= b.width
  {
    if x == 0 then [] else Repaint(b, x - 1) + ColumnPaints(b, x - 1)
  }

  /** The repaint of the first x columns holds one paint per cell of them. */
  lemma {:induction false} RepaintLength(b: Rules.Board, x: nat)
    requires b.Wf() && x <= b.width
    ensures |Repaint(b, x)| == ScanIndex(b.height, x, 0) == x * b.height
  {
    ScanIndexIsProduct(b.height, x, 0);
    if x > 0 {
      RepaintLength(b, x - 1);
    }
  }

  /** The repaint of the first x columns paints every cell of them at its visiting position, in the
      cell's state on b. */
  lemma {:induction false} RepaintAt(b: Rules.Board, x: nat, a: nat, c: nat)
    requires b.Wf() && a < x <= b.width && c < b.height
    ensures ScanIndex(b.height, a, c) < |Repaint(b, x)|
    ensures Repaint(b, x)[ScanIndex(b.height, a, c)] == PaintFor(a, c, b.cells[a][c])
  {
    RepaintLength(b, x - 1);
    ScanIndexShift(b.height, a, c);
    if a < x - 1 {
      RepaintAt(b, x - 1, a, c);
      ScanIndexOrdered(b.height, a, c, x - 1, 0);
    }
  }

  /** The repaint of the first x columns depends on those columns only. */
  lemma {:induction false} RepaintFrame(b1: Rules.Board, b2: Rules.Board, x: nat)
    requires b1.Wf() && b2.Wf() && b1.height == b2.height && x <= b1.width && x <= b2.width
    requires forall a :: 0 <= a < x ==> b1.cells[a] == b2.cells[a]
    ensures Repaint(b1, x) == Repaint(b2, x)
  {
    if x > 0 {
      RepaintFrame(b1, b2, x - 1);
    }
  }

  /** The timer period for a speed of `fps` ticks per second: floor(1000 / fps) milliseconds. */
  function Period(fps: int): (ms: nat)
    requires fps > 0
    ensures ms * fps <= 1000 < (ms + 1) * fps
  {
    1000 / fps
  }

  /** The cells around (x, y) that lie on a width by height grid, visited offset by offset with
      the offsets clipped at the edges. */
  method GetNeighbours(width: int, height: int, x: int, y: int) returns (ns: seq<(int, int)>)
    requires InBounds(width, height, x, y)
    ensures forall p :: p in ns <==> InBounds(width, height, p.0, p.1) && Adjacent(x, y, p.0, p.1)
    ensures forall k, l :: 0 <= k < l < |ns| ==> ns[k] != ns[l]
    ensures |ns| == Span(width, x) * Span(height, y) - 1
  {
    var loI, hiI := JsAnd(x, -1), JsAnd(width - x - 1, 1);
    var loJ, hiJ := JsAnd(y, -1), JsAnd(height - y - 1, 1);
    assert Span(width, x) == hiI - loI + 1 && Span(height, y) == hiJ - loJ + 1;
    ghost var rows := hiJ - loJ + 1;
    ns := [];
    var i := loI;
    while i <= hiI
      invariant loI <= i <= hiI + 1
      invariant forall p :: p in ns <==>
                  InBounds(width, height, p.0, p.1) && Adjacent(x, y, p.0, p.1) && p.0 < x + i
      invariant forall k :: 0 <= k < |ns| ==> ns[k].0 < x + i
      invariant forall k, l :: 0 <= k < l < |ns| ==> ns[k] != ns[l]
      invariant |ns| == (i - loI) * rows - (if i > 0 then 1 else 0)
    {
      ghost var before := |ns|;
      var j := loJ;
      while j <= hiJ
        invariant loJ <= j <= hiJ + 1
        invariant forall p :: p in ns <==>
                    InBounds(width, height, p.0, p.1) && Adjacent(x, y, p.0, p.1) &&
                    (p.0 < x + i || (p.0 == x + i && p.1 < y + j))
        invariant forall k :: 0 <= k < |ns| ==> ns[k].0 < x + i || (ns[k].0 == x + i && ns[k].1 < y + j)
        invariant forall k, l :: 0 <= k < l < |ns| ==> ns[k] != ns[l]
        invariant |ns| == before + (j - loJ) - (if i == 0 && j > 0 then 1 else 0)
      {
        // Skip the offset (0, 0), which is (x, y) itself.
        if i != 0 || j != 0 {
          ns := ns + [(x + i, y + j)];
        }
        j := j + 1;
      }
      assert (i + 1 - loI) * rows == (i - loI) * rows + rows;
      i := i + 1;
    }
  }

  /** Fresh alive and neighbour arrays of width columns by height rows, every cell dead with count 0. */
  method MakeGrid(width: nat, height: nat) returns (alive: array2<bool>, neighbours: array2<int>)
    ensures fresh(alive) && fresh(neighbours)
    ensures alive.Length0 == width && alive.Length1 == height
    ensures neighbours.Length0 == width && neighbours.Length1 == height
    ensures forall x, y :: InBounds(width, height, x, y) ==> !alive[x, y] && neighbours[x, y] == 0
  {
    alive := new bool[width, height];
    neighbours := new int[width, height];
    var i := 0;
    while i < width
      invariant 0 <= i <= width
      invariant forall x, y :: InBounds(i, height, x, y) ==> !alive[x, y] && neighbours[x, y] == 0
    {
      var j := 0;
      while j < height
        invariant 0 <= j <= height
        invariant forall x, y :: InBounds(i, height, x, y) ==> !alive[x, y] && neighbours[x, y] == 0
        invariant forall y :: 0 <= y < j ==> !alive[i, y] && neighbours[i, y] == 0
      {
        alive[i, j] := false;
        neighbours[i, j] := 0;
        j := j + 1;
      }
      i := i + 1;
    }
  }

  class Life {
    const cellSize: nat
    /** The grid size: whole cells across and down the canvas. */
    const width: nat
    const height: nat
    const alive: array2<bool>
    const neighbours: array2<int>
    var started: bool
    /** The handle of this game's interval timer, when it has one. */
    var interval: Option<nat>
    /** The interval timers the window runs for this game: handle to period in milliseconds. */
    var timers: map<nat, nat>
    /** The handle the window gives the next timer it creates. */
    var nextHandle: nat

    ghost predicate Shaped() {
      cellSize > 0 &&
      alive.Length0 == width && alive.Length1 == height &&
      neighbours.Length0 == width && neighbours.Length1 == height
    }

    /** Between generations every neighbour counter is 0. */
    ghost predicate Quiet()
      reads neighbours
    {
      forall x, y :: 0 <= x < neighbours.Length0 && 0 <= y < neighbours.Length1 ==> neighbours[x, y] == 0
    }

    /** A timer runs exactly when the game is started, and it is the one `interval` names. */
    ghost predicate OneTimerWhenStarted()
      reads this
    {
      match interval
      case None => !started && timers == map[]
      case Some(h) => started && timers.Keys == {h} && h < nextHandle
    }

    ghost predicate Valid()
      reads this, neighbours
    {
      Shaped() && Quiet() && OneTimerWhenStarted()
    }

    /** The alive flags as a board value. */
    ghost function Board(): (b: Rules.Board)
      reads alive
      ensures b.Wf() && b.width == alive.Length0 && b.height == alive.Length1
      ensures forall x, y :: InBounds(b.width, b.height, x, y) ==> b.cells[x][y] == alive[x, y]
    {
      Rules.Board(alive.Length0, alive.Length1,
        seq(alive.Length0, x requires 0 <= x < alive.Length0 reads alive =>
          seq(alive.Length1, y requires 0 <= y < alive.Length1 reads alive => alive[x, y])))
    }

    /** A game on a canvas of the given pixel size: the grid holds the whole cells that fit, all dead,
        and the game is stopped with no timer. */
    constructor (canvasWidth: nat, canvasHeight: nat, cellSize: nat)
      requires cellSize > 0
      ensures Valid()
      ensures this.cellSize == cellSize
      ensures (width, height) == Geometry.GridSize(canvasWidth, canvasHeight, cellSize)
      ensures Board() == Empty(width, height)
      ensures !started && timers == map[]
    {
      var size := Geometry.GridSize(canvasWidth, canvasHeight, cellSize);
      this.cellSize := cellSize;
      width, height := size.0, size.1;
      var a, n := MakeGrid(size.0, size.1);
      alive, neighbours := a, n;
      started, interval, timers, nextHandle := false, None, map[], 0;
      new;
      SameCells(Board(), Empty(width, height));
    }

    /** Kill every cell and zero every counter; the grid keeps its size. */
    method Clear()
      requires Shaped() && OneTimerWhenStarted()
      modifies alive, neighbours
      ensures Valid()
      ensures Board() == Empty(width, height)
    {
      var i := 0;
      while i < width
        invariant 0 <= i <= width
        invariant forall x, y :: InBounds(i, height, x, y) ==> !alive[x, y] && neighbours[x, y] == 0
      {
        var j := 0;
        while j < height
          invariant 0 <= j <= height
          invariant forall x, y :: InBounds(i, height, x, y) ==> !alive[x, y] && neighbours[x, y] == 0
          invariant forall y :: 0 <= y < j ==> !alive[i, y] && neighbours[i, y] == 0
        {
          alive[i, j] := false;
          neighbours[i, j] := 0;
          j := j + 1;
        }
        i := i + 1;
      }
      SameCells(Board(), Empty(width, height));
    }

    /** A click at pixel offset (px, py) from the grid's top-left corner. Left of or above the grid
        nothing happens; otherwise the cell under the pixel is flipped and drawn if it is now alive,
        erased if it is now dead. */
    method Click(px: int, py: int) returns (r: ClickResult)
      requires Valid()
      modifies alive
      ensures Valid()
      ensures px < 0 || py < 0 ==> r == Ignored
      ensures px >= 0 && py >= 0 ==>
                var c := Geometry.PixelsToCoords(cellSize, px, py);
                if InBounds(width, height, c.0, c.1)
                then r == Toggled(if alive[c.0, c.1] then Draw(c.0, c.1) else Erase(c.0, c.1)) &&
                     Board() == Toggle(old(Board()), c.0, c.1)
                else r == NoCell
      ensures !r.Toggled? ==> Board() == old(Board())
    {
      if px < 0 || py < 0 {
        return Ignored;
      }
      var c := Geometry.PixelsToCoords(cellSize, px, py);
      if c.0 >= width || c.1 >= height {
        return NoCell;
      }
      alive[c.0, c.1] := !alive[c.0, c.1];
      r := if alive[c.0, c.1] then Toggled(Draw(c.0, c.1)) else Toggled(Erase(c.0, c.1));
      SameCells(Board(), Toggle(old(Board()), c.0, c.1));
    }

    /** If cell (x, y) is alive, add 1 to the counter of each cell around it. */
    method CountNeighbours(x: int, y: int)
      requires Shaped() && InBounds(width, height, x, y)
      modifies neighbours
      ensures forall a, c :: InBounds(width, height, a, c) ==>
                neighbours[a, c] == old(neighbours[a, c]) + (if alive[x, y] && Adjacent(x, y, a, c) then 1 else 0)
    {
      if !alive[x, y] {
        return;
      }
      var ns := GetNeighbours(width, height, x, y);
      var i := 0;
      while i < |ns|
        invariant 0 <= i <= |ns|
        invariant forall a, c :: InBounds(width, height, a, c) ==>
                    neighbours[a, c] == old(neighbours[a, c]) + (if (a, c) in ns[..i] then 1 else 0)
      {
        assert ns[..i + 1] == ns[..i] + [ns[i]];
        assert ns[i] !in ns[..i];
        neighbours[ns[i].0, ns[i].1] := neighbours[ns[i].0, ns[i].1] + 1;
        i := i + 1;
      }
      assert ns[..i] == ns;
    }

    /** The count pass: afterwards every counter holds its cell's number of live neighbours, and no
        cell has changed. */
    method CountAll()
      requires Valid()
      modifies neighbours
      ensures forall a, c :: InBounds(width, height, a, c) ==> neighbours[a, c] == LiveNeighbourCount(Board(), a, c)
    {
      ghost var b := Board();
      var x := 0;
      while x < width
        invariant 0 <= x <= width
        invariant forall a, c :: InBounds(width, height, a, c) ==> neighbours[a, c] == ScannedNeighbourCount(b, a, c, x, 0)
      {
        var y := 0;
        while y < height
          invariant 0 <= y <= height
          invariant forall a, c :: InBounds(width, height, a, c) ==> neighbours[a, c] == ScannedNeighbourCount(b, a, c, x, y)
        {
          CountNeighbours(x, y);
          forall a, c | InBounds(width, height, a, c)
            ensures neighbours[a, c] == ScannedNeighbourCount(b, a, c, x, y + 1)
          {
            ScanStep(b, a, c, x, y);
          }
          y := y + 1;
        }
        forall a, c | InBounds(width, height, a, c)
          ensures neighbours[a, c] == ScannedNeighbourCount(b, a, c, x + 1, 0)
        {
          ScanNextColumn(b, a, c, x);
        }
        x := x + 1;
      }
      forall a, c | InBounds(width, height, a, c)
        ensures neighbours[a, c] == LiveNeighbourCount(b, a, c)
      {
        ScanEnds(b, a, c);
      }
    }
    /** The decide pass over column x, top to bottom: each cell lives on with 2 or 3 counted
        neighbours, is born with exactly 3 and is dead otherwise; its counter goes back to 0 and
        its paint is recorded. */
    method DecideColumn(x: int) returns (column: seq<Paint>)
      requires Shaped() && 0 <= x < width
      modifies alive, neighbours
      ensures forall c :: 0 <= c < height ==>
                alive[x, c] == Rule(old(alive[x, c]), old(neighbours[x, c])) && neighbours[x, c] == 0
      ensures forall a, c :: InBounds(width, height, a, c) && a != x ==>
                alive[a, c] == old(alive[a, c]) && neighbours[a, c] == old(neighbours[a, c])
      ensures column == ColumnPaints(Board(), x)
    {
      column := [];
      var y := 0;
      while y < height
        invariant 0 <= y <= height
        invariant forall c :: 0 <= c < y ==>
                    alive[x, c] == Rule(old(alive[x, c]), old(neighbours[x, c])) && neighbours[x, c] == 0
        invariant forall a, c :: InBounds(width, height, a, c) && (a != x || c >= y) ==>
                    alive[a, c] == old(alive[a, c]) && neighbours[a, c] == old(neighbours[a, c])
        invariant |column| == y
        invariant forall c :: 0 <= c < y ==> column[c] == PaintFor(x, c, alive[x, c])
      {
        if alive[x, y] {
          // Survival needs a count of 2 or 3.
          alive[x, y] := neighbours[x, y] == 2 || neighbours[x, y] == 3;
        } else {
          // Birth needs a count of exactly 3.
          alive[x, y] := neighbours[x, y] == 3;
        }
        neighbours[x, y] := 0;
        // Record the repaint of the cell in its new state.
        column := column + [PaintFor(x, y, alive[x, y])];
        y := y + 1;
      }
      assert column == ColumnPaints(Board(), x);
    }

    /** The decide pass over the whole grid, column by column, recording the repaint of every cell
        in its new state in the same order. */
    method ApplyRule() returns (paints: seq<Paint>)
      requires Shaped()
      modifies alive, neighbours
      ensures Quiet()
      ensures forall a, c :: InBounds(width, height, a, c) ==> alive[a, c] == Rule(old(alive[a, c]), old(neighbours[a, c]))
      ensures paints == Repaint(Board(), width)
    {
      paints := [];
      var x := 0;
      while x < width
        invariant 0 <= x <= width
        invariant forall a, c :: InBounds(width, height, a, c) && a < x ==>
                    alive[a, c] == Rule(old(alive[a, c]), old(neighbours[a, c])) && neighbours[a, c] == 0
        invariant forall a, c :: InBounds(width, height, a, c) && a >= x ==>
                    alive[a, c] == old(alive[a, c]) && neighbours[a, c] == old(neighbours[a, c])
        invariant paints == Repaint(Board(), x)
      {
        ghost var before := Board();
        var column := DecideColumn(x);
        paints := paints + column;
        ghost var after := Board();
        forall a | 0 <= a < x
          ensures after.cells[a] == before.cells[a]
        {
          assert forall c :: 0 <= c < height ==> after.cells[a][c] == before.cells[a][c];
        }
        RepaintFrame(after, before, x);
        x := x + 1;
      }
    }

    /** One generation: count every cell's live neighbours first, then decide every cell. */
    method Tick() returns (paints: seq<Paint>)
      requires Valid()
      modifies alive, neighbours
      ensures Valid()
      ensures Board() == Next(old(Board()))
      ensures paints == Repaint(Board(), width)
    {
      ghost var b := Board();
      CountAll();
      paints := ApplyRule();
      SameCells(Board(), Next(b));
    }

    /** Cancel this game's timer, if it has one, and forget its handle. */
    method StopTimer()
      modifies this
      ensures interval == None
      ensures timers == if old(interval).Some? then old(timers) - {old(interval).value} else old(timers)
      ensures started == old(started) && nextHandle == old(nextHandle)
    {
      if interval.Some? {
        timers := timers - {interval.value};
      }
      interval := None;
    }

    /** Create a timer ticking every floor(1000 / fps) milliseconds and keep its handle. */
    method StartTimer(fps: int)
      requires fps > 0
      modifies this
      ensures interval == Some(old(nextHandle)) && nextHandle == old(nextHandle) + 1
      ensures timers == old(timers)[old(nextHandle) := Period(fps)]
      ensures started == old(started)
    {
      var ms := Period(fps);
      interval := Some(nextHandle);
      timers := timers[nextHandle := ms];
      nextHandle := nextHandle + 1;
    }

    /** Start the game at the speed `fps` unless it is already started. */
    method Start(fps: int)
      requires Valid() && fps > 0
      modifies this
      ensures Valid() && started
      ensures old(started) ==> unchanged(this)
      ensures !old(started) ==> interval == Some(old(nextHandle)) && timers == map[old(nextHandle) := Period(fps)] &&
                                nextHandle == old(nextHandle) + 1
    {
      if !started {
        StartTimer(fps);
        started := true;
      }
    }

    /** Stop the game unless it is already stopped. */
    method Stop()
      requires Valid()
      modifies this
      ensures Valid() && !started
      ensures !old(started) ==> unchanged(this)
      ensures interval == None && timers == map[] && nextHandle == old(nextHandle)
    {
      if started {
        StopTimer();
        started := false;
      }
    }

    /** A change of speed: when started, the timer is replaced by a fresh one at the new period; when
        stopped, nothing happens. */
    method UpdateFps(fps: int)
      requires Valid() && fps > 0
      modifies this
      ensures Valid() && started == old(started)
      ensures !old(started) ==> unchanged(this)
      ensures old(started) ==> interval == Some(old(nextHandle)) && timers == map[old(nextHandle) := Period(fps)] &&
                               nextHandle == old(nextHandle) + 1
    {
      if !started {
        return;
      }
      StopTimer();
      StartTimer(fps);
    }
  }
}
