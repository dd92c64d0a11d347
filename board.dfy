// The board list of the game and the ArrayListUtils operations on it:
// building the grid (initilizeBoard, connectCells), recolouring a cell,
// opening the wall an edge names (Edge.unionCells) and carving the maze
// (createMaze).  java.util.Random is the `pick` oracle: pick(k, bound) is the
// value of the k-th draw nextInt(bound), and `fuel` bounds how many draws the
// oracle offers.

module Boards {
  import opened Seqs
  import opened Grid
  import opened Edges
  import opened UnionFind
  import opened Kruskal

  /** How createMaze ends: the maze is carved, the draws ran out, or nextInt(0) would throw. */
  datatype Outcome = Built | OutOfFuel | BadBound

  /** Cell c while the first p cells of the grid exist and are connected. */
  function PartialCell(length: nat, p: nat, c: nat): Cell
    requires length > 0
  {
    Cell(c, Gray, Left(length, c), Top(length, c), Right(length, p, c), Bottom(length, p, c),
         false, false, false, false)
  }

  /** The colours a fresh board starts with: start Pink, last cell Green, the rest Gray. */
  function StartColor(n: nat, c: nat): Color
  {
    if c + 1 == n then Green else if c == 0 then Pink else Gray
  }

  /** The list after connectCells(board, j, i, length, place). */
  function Joined(cells: seq<Cell>, length: nat, j: nat, i: nat, place: nat): seq<Cell>
    requires place < |cells| && (j > 0 ==> place >= 1) && (i > 0 ==> place >= length)
  {
    var horizontal :=
      if j > 0 then
        var once := cells[place := cells[place].(left := Some(place - 1))];
        once[place - 1 := once[place - 1].(right := Some(place))]
      else cells;
    if i > 0 then
      var once := horizontal[place := horizontal[place].(top := Some(place - length))];
      once[place - length := once[place - length].(bottom := Some(place))]
    else horizontal
  }

  /**
   * Adding the fresh cell i*length+j and connecting it extends a connected
   * grid of i*length+j cells to one of i*length+j+1 cells.
   */
  lemma JoinStep(cells: seq<Cell>, length: nat, j: nat, i: nat)
    requires length > 0 && j < length && |cells| == i * length + j + 1
    requires forall c | 0 <= c < |cells| - 1 :: cells[c] == PartialCell(length, |cells| - 1, c)
    requires cells[|cells| - 1] == NewCell(|cells| - 1)
    ensures i > 0 ==> |cells| - 1 >= length
    ensures forall c | 0 <= c < |cells| ::
              Joined(cells, length, j, i, |cells| - 1)[c] == PartialCell(length, |cells|, c)
  {
    var place := |cells| - 1;
    DivModUnique(place, length, i, j);
    if i > 0 {
      MulMono(i, length);
    }
    var r := Joined(cells, length, j, i, place);
    forall c | 0 <= c < |cells|
      ensures r[c] == PartialCell(length, |cells|, c)
    {
      if c == place {
        assert j > 0 ==> place % length != 0;
      } else if c + 1 == place {
        assert (c + 1) % length != 0 <==> j > 0;
      } else if c + length == place {
      } else {
        assert r[c] == cells[c];
      }
    }
  }

  /** The makeEdge calls for one cell contribute its left edge, then its top edge. */
  lemma SeedEdges(length: nat, height: nat, cells: seq<Cell>, k: nat)
    requires WellFormed(length, height, cells) && k < |cells|
    ensures cells[k].MakeEdge(cells[k].left) + cells[k].MakeEdge(cells[k].top) == CellEdges(length, k)
  {
    assert LinkedAt(length, cells, k);
  }

  /** The board list: `length` columns, `height` rows, cells in row-major order. */
  class Board {
    const length: nat
    const height: nat
    var cells: seq<Cell>

    ghost predicate Valid()
      reads this
    {
      WellFormed(length, height, cells)
    }

    /**
     * initilizeBoard without the carving: cell i*length+j is added and
     * connected for every row i and column j, then the start is painted
     * Pink and the last cell Green.
     */
    constructor (length: nat, height: nat)
      requires length > 0 && height > 0
      ensures this.length == length && this.height == height
      ensures Valid() && AllClosed(cells)
      ensures forall c | 0 <= c < |cells| :: cells[c].color == StartColor(|cells|, c)
    {
      this.length := length;
      this.height := height;
      cells := [];
      new;
      var i := 0;
      while i < height
        invariant 0 <= i <= height && |cells| == i * length
        invariant forall c | 0 <= c < |cells| :: cells[c] == PartialCell(length, |cells|, c)
      {
        var j := 0;
        while j < length
          invariant 0 <= j <= length && |cells| == i * length + j
          invariant forall c | 0 <= c < |cells| :: cells[c] == PartialCell(length, |cells|, c)
        {
          cells := cells + [NewCell(i * length + j)];
          JoinStep(cells, length, j, i);
          ConnectCells(j, i, i * length + j);
          j := j + 1;
        }
        assert (i + 1) * length == i * length + length;
        i := i + 1;
      }
      assert forall c: nat | c < |cells| :: LinkedAt(length, cells, c);
      assert forall c: nat | c < |cells| :: ReciprocalAt(cells, c);
      MulMono(height, length);
      var uncoloured := cells;
      ChangeColor(0, Pink);
      ChangeColor(|cells| - 1, Green);
      ShapeKeepsWellFormed(length, height, uncoloured, cells);
    }

    /** connectCells: links cell `place` (row i, column j) with its left and top neighbours, both ways. */
    method ConnectCells(j: nat, i: nat, place: nat)
      requires place < |cells| && (j > 0 ==> place >= 1) && (i > 0 ==> place >= length)
      modifies this
      ensures cells == Joined(old(cells), length, j, i, place)
    {
      if j > 0 {
        cells := cells[place := cells[place].(left := Some(place - 1))];
        cells := cells[place - 1 := cells[place - 1].(right := Some(place))];
      }
      if i > 0 {
        cells := cells[place := cells[place].(top := Some(place - length))];
        cells := cells[place - length := cells[place - length].(bottom := Some(place))];
      }
    }

    /** Cell.changeColor on cell c of the board. */
    method ChangeColor(c: nat, color: Color)
      requires c < |cells|
      modifies this
      ensures cells == Recolor(old(cells), c, color)
    {
      cells := cells[c := cells[c].(color := color)];
    }

    /** Edge.unionCells: Cell.union of the edge's from-cell with its to-cell. */
    method UnionCells(e: Edge)
      requires e.from < |cells| && e.to < |cells|
      modifies this
      ensures cells == Opened(old(cells), e.from, e.to)
    {
      if cells[e.from].right == Some(e.to) {
        cells := cells[e.from := cells[e.from].(rightEdge := true)];
        cells := cells[e.to := cells[e.to].(leftEdge := true)];
      } else {
        cells := cells[e.from := cells[e.from].(bottomEdge := true)];
        cells := cells[e.to := cells[e.to].(topEdge := true)];
      }
    }

    /**
     * createMaze: seeds every cell as its own representative and lists the
     * walls, then draws walls with nextInt(size - 1) and opens each drawn
     * wall whose two cells have different representatives, until
     * size - 1 walls are open.  When it ends Built, the open walls are
     * exactly size - 1 listed walls and connect every cell to every other:
     * a spanning tree.  The last listed wall is never drawn, so it stays
     * closed, and a board of one row or one column is never Built.
     */
    method CreateMaze(pick: (nat, nat) -> nat, fuel: nat) returns (outcome: Outcome)
      requires Valid() && AllClosed(cells)
      requires forall k: nat, bound: nat :: 0 < bound ==> pick(k, bound) < bound
      modifies this
      ensures Valid()
      ensures |cells| == |old(cells)|
      ensures forall c | 0 <= c < |cells| :: cells[c].color == old(cells)[c].color
      ensures outcome.Built? ==>
                |OpenEdges(cells, GridEdges(length, |cells|))| == |cells| - 1 && AllConnected(cells)
      ensures |cells| >= 2 ==>
                !Opens(cells, Last(GridEdges(length, |cells|)).from, Last(GridEdges(length, |cells|)).to)
      ensures (length == 1 || height == 1) && |cells| >= 2 ==> !outcome.Built?
    {
      var n := |cells|;
      MulMono(height, length);
      // every cell its own representative; every cell's left and top walls listed
      var reps: seq<nat> := [];
      var worklist: seq<Edge> := [];
      var k := 0;
      while k < n
        invariant k <= n && reps == Identity(k) && worklist == GridEdges(length, k)
        invariant cells == old(cells)
      {
        var c := cells[k];
        assert LinkedAt(length, cells, k);
        reps := reps + [c.name];
        assert reps == Identity(k + 1);
        SeedEdges(length, height, cells, k);
        worklist := worklist + c.MakeEdge(c.left) + c.MakeEdge(c.top);
        k := k + 1;
      }
      var numEdges: nat := 0;
      var draws: nat := 0;
      ghost var depth := Zeros(n);
      ghost var toRoot := Alone(n);
      ghost var start := cells;
      Start(length, height, cells);
      outcome := Built;
      while numEdges < n - 1 && outcome.Built?
        invariant Invariant(length, height, cells, reps, depth, worklist, numEdges, toRoot)
        invariant |cells| == n && draws <= fuel
        invariant forall c | 0 <= c < n :: cells[c].color == start[c].color
        decreases fuel - draws, if outcome.Built? then 1 else 0
      {
        if |worklist| - 1 <= 0 {
          outcome := BadBound;
        } else if draws == fuel {
          outcome := OutOfFuel;
        } else {
          var idx := pick(draws, |worklist| - 1);
          draws := draws + 1;
          var e := worklist[idx];
          var fromRep := Find(reps, depth, e.from);
          var toRep := Find(reps, depth, e.to);
          if fromRep != toRep {
            depth, toRoot := Accept(length, height, cells, reps, depth, worklist, numEdges, toRoot, idx);
            reps := reps[toRep := fromRep];
            UnionCells(e);
            worklist := RemoveAt(worklist, idx);
            numEdges := numEdges + 1;
          }
        }
      }
      SomeRoot(reps, depth);
      if outcome.Built? {
        Done(length, height, cells, reps, depth, worklist, toRoot);
      }
      if n >= 2 {
        var last := Last(GridEdges(length, n));
        assert last == Last(worklist) && last in worklist;
        if length == 1 || height == 1 {
          if outcome.Built? {
            LineCutOff(length, height, cells);
            assert false;
          }
        }
      }
    }
  }

  /**
   * initilizeBoard: a fresh length x height board, carved by createMaze with
   * the draws of `pick`.
   */
  method InitializeBoard(length: nat, height: nat, pick: (nat, nat) -> nat, fuel: nat)
    returns (board: Board, outcome: Outcome)
    requires length > 0 && height > 0
    requires forall k: nat, bound: nat :: 0 < bound ==> pick(k, bound) < bound
    ensures fresh(board) && board.length == length && board.height == height && board.Valid()
    ensures forall c | 0 <= c < |board.cells| :: board.cells[c].color == StartColor(|board.cells|, c)
    ensures outcome.Built? ==>
              |OpenEdges(board.cells, GridEdges(length, |board.cells|))| == |board.cells| - 1
              && AllConnected(board.cells)
    ensures (length == 1 || height == 1) && |board.cells| >= 2 ==> !outcome.Built?
  {
    board := new Board(length, height);
    outcome := board.CreateMaze(pick, fuel);
  }
}
