// The game area: cells in row-major order, the links between neighbouring
// cells and the walls between them.  A cell refers to its neighbours by
// index ("name"), so the board is a sequence of Cell values.

module Grid {
  import opened Seqs

  datatype Option<T> = None | Some(value: T)

  /** The colours the game paints cells with (LightPink is rgb 255,141,161). */
  datatype Color = Gray | Pink | LightPink | Green

  /** A wall between two cells, named by their indices. */
  datatype Edge = Edge(from: nat, to: nat)

  /**
   * One square of the game area.  left/top/right/bottom link to the
   * neighbouring cells (None at the border); the four flags say whether
   * the wall on that side has been opened.
   */
  datatype Cell = Cell(
    name: nat, color: Color,
    left: Option<nat>, top: Option<nat>, right: Option<nat>, bottom: Option<nat>,
    leftEdge: bool, topEdge: bool, rightEdge: bool, bottomEdge: bool)
  {
    /** Some side of this cell is open towards cell b. */
    predicate OpensTo(b: nat)
    {
      (topEdge && top == Some(b)) || (leftEdge && left == Some(b))
      || (bottomEdge && bottom == Some(b)) || (rightEdge && right == Some(b))
    }

    /**
     * The cells reachable through an open wall, in the order top, left,
     * bottom, right.  An open wall without a link (a hole in the border)
     * contributes None.
     */
    function Neighbors(): (ns: seq<Option<nat>>)
      ensures |ns| <= 4
      ensures forall b: nat :: Some(b) in ns <==> OpensTo(b)
      ensures None in ns <==>
                (topEdge && top.None?) || (leftEdge && left.None?)
                || (bottomEdge && bottom.None?) || (rightEdge && right.None?)
    {
      (if topEdge then [top] else []) + (if leftEdge then [left] else [])
      + (if bottomEdge then [bottom] else []) + (if rightEdge then [right] else [])
    }

    /** The link in the direction an arrow key names; None for other keys. */
    function Link(key: string): Option<nat>
    {
      if key == "left" then left
      else if key == "right" then right
      else if key == "up" then top
      else if key == "down" then bottom
      else None
    }

    /** The neighbour an arrow key moves to, if the wall that way is open. */
    function FindNext(key: string): (r: Option<nat>)
      ensures r.Some? <==> Link(key).Some? && OpensTo(Link(key).value)
      ensures r.Some? ==> r == Link(key)
    {
      var next := Link(key);
      if next in Neighbors() then next else None
    }

    /** The edge from that neighbour to this cell, if the neighbour exists. */
    function MakeEdge(that: Option<nat>): (es: seq<Edge>)
      ensures that.None? <==> es == []
      ensures that.Some? ==> es == [Edge(that.value, name)]
    {
      if that.Some? then [Edge(that.value, name)] else []
    }
  }

  /** A fresh gray cell with no links and all four walls closed. */
  function NewCell(name: nat): Cell
  {
    Cell(name, Gray, None, None, None, None, false, false, false, false)
  }

  /** The cell with its colour changed and nothing else. */
  function Recolor(cells: seq<Cell>, c: nat, color: Color): (r: seq<Cell>)
    requires c < |cells|
    ensures |r| == |cells| && r[c].color == color
    ensures SameShape(cells, r)
    ensures forall k | 0 <= k < |r| && k != c :: r[k] == cells[k]
  {
    cells[c := cells[c].(color := color)]
  }

  /** The cell without its colour: everything the walls and links consist of. */
  function Shape(c: Cell): Cell
  {
    c.(color := Gray)
  }

  /** Two boards that differ at most in colours. */
  predicate SameShape(a: seq<Cell>, b: seq<Cell>)
  {
    |a| == |b| && forall k | 0 <= k < |a| :: Shape(a[k]) == Shape(b[k])
  }

  // ---------------------------------------------------------------------
  // Geometry of a board with `length` columns and n cells in row-major order.

  function Left(length: nat, c: nat): Option<nat>
    requires length > 0
  {
    if c % length != 0 then Some(c - 1) else None
  }

  function Top(length: nat, c: nat): Option<nat>
  {
    if c >= length then Some(c - length) else None
  }

  function Right(length: nat, n: nat, c: nat): Option<nat>
    requires length > 0
  {
    if (c + 1) % length != 0 && c + 1 < n then Some(c + 1) else None
  }

  function Bottom(length: nat, n: nat, c: nat): Option<nat>
  {
    if c + length < n then Some(c + length) else None
  }

  /** Cell c carries its own index as name and the links the geometry gives it. */
  ghost predicate LinkedAt(length: nat, cells: seq<Cell>, c: nat)
    requires length > 0 && c < |cells|
  {
    cells[c].name == c
    && cells[c].left == Left(length, c) && cells[c].top == Top(length, c)
    && cells[c].right == Right(length, |cells|, c) && cells[c].bottom == Bottom(length, |cells|, c)
  }

  ghost predicate Linked(length: nat, cells: seq<Cell>)
    requires length > 0
  {
    forall c: nat | c < |cells| :: LinkedAt(length, cells, c)
  }

  /** Every open wall of cell c has a neighbour behind it, whose facing wall is open too. */
  ghost predicate ReciprocalAt(cells: seq<Cell>, c: nat)
    requires c < |cells|
  {
    var cell := cells[c];
    (cell.leftEdge ==> cell.left.Some? && cell.left.value < |cells| && cells[cell.left.value].rightEdge)
    && (cell.rightEdge ==> cell.right.Some? && cell.right.value < |cells| && cells[cell.right.value].leftEdge)
    && (cell.topEdge ==> cell.top.Some? && cell.top.value < |cells| && cells[cell.top.value].bottomEdge)
    && (cell.bottomEdge ==> cell.bottom.Some? && cell.bottom.value < |cells| && cells[cell.bottom.value].topEdge)
  }

  ghost predicate Reciprocal(cells: seq<Cell>)
  {
    forall c: nat | c < |cells| :: ReciprocalAt(cells, c)
  }

  /** A board of length x height cells with consistent links and walls. */
  ghost predicate WellFormed(length: nat, height: nat, cells: seq<Cell>)
  {
    length > 0 && height > 0 && |cells| == length * height
    && Linked(length, cells) && Reciprocal(cells)
  }

  /** No wall of any cell is open. */
  ghost predicate AllClosed(cells: seq<Cell>)
  {
    forall c | 0 <= c < |cells| ::
      !cells[c].leftEdge && !cells[c].topEdge && !cells[c].rightEdge && !cells[c].bottomEdge
  }

  /** The indices of a board of n cells. */
  function CellSet(n: nat): (r: set<nat>)
    ensures forall x: nat :: x in r <==> x < n
    ensures |r| == n
  {
    if n == 0 then {} else CellSet(n - 1) + {n - 1}
  }

  /** The listed walls that are open. */
  ghost function OpenEdges(cells: seq<Cell>, es: seq<Edge>): set<Edge>
  {
    set e | e in es && Opens(cells, e.from, e.to)
  }

  // ---------------------------------------------------------------------
  // Arithmetic on row-major indices.

  /**
   * A board of at least one row has at least `length` cells.  Used where a
   * board of length * height cells must be known nonempty or larger than
   * an index: Game.Maze.OnKeyEvent before resetSolution and
   * initilizeBoard, Search.ResetPlayable, and the wall and board
   * constructions of Edges and Boards, and DivModUnique below.
   */
  lemma MulMono(k: int, n: nat)
    requires k >= 1
    ensures k * n >= n
  {}

  /** Quotient and remainder are determined by any decomposition x == q * n + r. */
  lemma DivModUnique(x: nat, n: nat, q: nat, r: nat)
    requires r < n && x == q * n + r
    ensures x / n == q && x % n == r
  {
    var q', r' := x / n, x % n;
    assert x == q' * n + r';
    if q' > q {
      MulMono(q' - q, n);
    } else if q' < q {
      MulMono(q - q', n);
    }
  }

  // ---------------------------------------------------------------------
  // Walls and walks on a well-formed board.

  /** The wall between the cells of a board is open, seen from cell a. */
  ghost predicate Opens(cells: seq<Cell>, a: nat, b: nat)
  {
    a < |cells| && cells[a].OpensTo(b)
  }

  /** Opening is symmetric: the cell behind an open wall is open back. */
  lemma OpensSymmetric(length: nat, height: nat, cells: seq<Cell>, a: nat, b: nat)
    requires WellFormed(length, height, cells) && Opens(cells, a, b)
    ensures Opens(cells, b, a)
  {
    assert LinkedAt(length, cells, a) && ReciprocalAt(cells, a);
    assert b < |cells|;
    assert LinkedAt(length, cells, b);
    if length == 1 {
      assert a % 1 == 0 && b % 1 == 0 && (a + 1) % 1 == 0 && (b + 1) % 1 == 0;
    }
  }

  /** On a well-formed board every entry of neighbors() is a cell of the board. */
  lemma NeighborsOnBoard(length: nat, height: nat, cells: seq<Cell>, c: nat)
    requires WellFormed(length, height, cells) && c < |cells|
    ensures forall k | 0 <= k < |cells[c].Neighbors()| ::
              cells[c].Neighbors()[k].Some? && cells[c].Neighbors()[k].value < |cells|
  {
    var ns := cells[c].Neighbors();
    assert ReciprocalAt(cells, c);
    forall k | 0 <= k < |ns|
      ensures ns[k].Some? && ns[k].value < |cells|
    {
      assert ns[k] in ns;
      if ns[k].Some? {
        assert cells[c].OpensTo(ns[k].value);
      }
    }
  }

  /** No open wall leads from a cell to itself. */
  lemma OpensNotSelf(length: nat, height: nat, cells: seq<Cell>, a: nat, b: nat)
    requires WellFormed(length, height, cells) && Opens(cells, a, b)
    ensures a != b && b < |cells|
  {
    assert LinkedAt(length, cells, a) && ReciprocalAt(cells, a);
  }

  /** A sequence of cells, each open towards the next. */
  ghost predicate IsWalk(cells: seq<Cell>, p: seq<nat>)
  {
    |p| >= 1 && (forall k | 0 <= k < |p| :: p[k] < |cells|)
    && forall k | 0 <= k < |p| - 1 :: Opens(cells, p[k], p[k + 1])
  }

  /** Cell y can be reached from cell x through open walls. */
  ghost predicate Connected(cells: seq<Cell>, x: nat, y: nat)
  {
    exists p: seq<nat> :: IsWalk(cells, p) && p[0] == x && Last(p) == y
  }

  /** Every cell can be reached from every other: the walls form a connected maze. */
  ghost predicate AllConnected(cells: seq<Cell>)
  {
    forall x: nat, y: nat | x < |cells| && y < |cells| :: Connected(cells, x, y)
  }

  /** A walk read backwards is a walk. */
  lemma WalkReverse(length: nat, height: nat, cells: seq<Cell>, p: seq<nat>)
    requires WellFormed(length, height, cells) && IsWalk(cells, p)
    ensures IsWalk(cells, Reverse(p))
  {
    var r := Reverse(p);
    forall k | 0 <= k < |r| - 1
      ensures Opens(cells, r[k], r[k + 1])
    {
      var i := |p| - 2 - k;
      assert r[k] == p[i + 1] && r[k + 1] == p[i];
      assert Opens(cells, p[i], p[i + 1]);
      OpensSymmetric(length, height, cells, p[i], p[i + 1]);
    }
  }

  /** Two walks sharing an end glue into one walk. */
  lemma WalkJoin(cells: seq<Cell>, p: seq<nat>, q: seq<nat>)
    requires IsWalk(cells, p) && IsWalk(cells, q) && Last(p) == q[0]
    ensures IsWalk(cells, p + q[1..])
    ensures (p + q[1..])[0] == p[0] && Last(p + q[1..]) == Last(q)
  {
    var w := p + q[1..];
    forall k | 0 <= k < |w| - 1
      ensures Opens(cells, w[k], w[k + 1])
    {
      if k < |p| - 1 {
        assert w[k] == p[k] && w[k + 1] == p[k + 1];
      } else {
        var i := k - |p| + 1;
        assert w[k] == q[i] && w[k + 1] == q[i + 1];
      }
    }
  }

  /** A walk followed by an open wall and another walk is a walk. */
  lemma WalkStep(cells: seq<Cell>, p: seq<nat>, q: seq<nat>)
    requires IsWalk(cells, p) && IsWalk(cells, q) && cells[Last(p)].OpensTo(q[0])
    ensures IsWalk(cells, p + q)
  {
    var w := p + q;
    forall k | 0 <= k < |w| - 1
      ensures Opens(cells, w[k], w[k + 1])
    {
      if k < |p| - 1 {
        assert w[k] == p[k] && w[k + 1] == p[k + 1];
      } else if k == |p| - 1 {
        assert w[k] == Last(p) && w[k + 1] == q[0];
      } else {
        var i := k - |p|;
        assert w[k] == q[i] && w[k + 1] == q[i + 1];
      }
    }
  }

  /** Opening more walls keeps every walk a walk. */
  lemma WalkWiden(cells: seq<Cell>, wider: seq<Cell>, p: seq<nat>)
    requires |wider| == |cells| && IsWalk(cells, p)
    requires forall a: nat, b: nat | a < |cells| && cells[a].OpensTo(b) :: wider[a].OpensTo(b)
    ensures IsWalk(wider, p)
  {
    forall k | 0 <= k < |p| - 1
      ensures Opens(wider, p[k], p[k + 1])
    {
      assert Opens(cells, p[k], p[k + 1]);
    }
  }

  /**
   * On a well-formed board an arrow key moves exactly when the wall on that
   * side is open, and then to the neighbour on that side.
   */
  lemma FindNextOnBoard(length: nat, height: nat, cells: seq<Cell>, c: nat, key: string)
    requires WellFormed(length, height, cells) && c < |cells|
    ensures cells[c].FindNext(key) ==
              if key == "left" && cells[c].leftEdge then cells[c].left
              else if key == "right" && cells[c].rightEdge then cells[c].right
              else if key == "up" && cells[c].topEdge then cells[c].top
              else if key == "down" && cells[c].bottomEdge then cells[c].bottom
              else None
  {
    assert LinkedAt(length, cells, c);
    if length == 1 {
      assert c % 1 == 0 && (c + 1) % 1 == 0;
    }
  }

  // ---------------------------------------------------------------------
  // Cell.union: opening the wall between two adjacent cells.

  /**
   * The board after opening the wall between `from` and the cell `to`,
   * which is its right or its bottom neighbour: the right/left pair of
   * flags when `to` is on the right, otherwise the bottom/top pair.
   */
  function Opened(cells: seq<Cell>, from: nat, to: nat): (r: seq<Cell>)
    requires from < |cells| && to < |cells|
    ensures |r| == |cells|
    ensures forall k | 0 <= k < |r| :: r[k].name == cells[k].name && r[k].color == cells[k].color
  {
    if cells[from].right == Some(to) then
      var once := cells[from := cells[from].(rightEdge := true)];
      once[to := once[to].(leftEdge := true)]
    else
      var once := cells[from := cells[from].(bottomEdge := true)];
      once[to := once[to].(topEdge := true)]
  }

  /** Opening a wall keeps every link and only ever opens walls. */
  lemma OpenedLinks(cells: seq<Cell>, from: nat, to: nat)
    requires from < |cells| && to < |cells|
    ensures forall k | 0 <= k < |cells| ::
              var r := Opened(cells, from, to);
              r[k].name == cells[k].name && r[k].left == cells[k].left
              && r[k].top == cells[k].top && r[k].right == cells[k].right && r[k].bottom == cells[k].bottom
              && (cells[k].leftEdge ==> r[k].leftEdge) && (cells[k].topEdge ==> r[k].topEdge)
              && (cells[k].rightEdge ==> r[k].rightEdge) && (cells[k].bottomEdge ==> r[k].bottomEdge)
  {
  }

  /** The cells behind a cell's right or bottom link exist and come later on the board. */
  lemma LinkedForward(length: nat, height: nat, cells: seq<Cell>, from: nat, to: nat)
    requires WellFormed(length, height, cells) && from < |cells|
    requires cells[from].right == Some(to) || cells[from].bottom == Some(to)
    ensures to < |cells| && from < to
  {
    assert LinkedAt(length, cells, from);
  }

  /** Opening a wall keeps every cell's name and links. */
  lemma OpenedLinked(length: nat, cells: seq<Cell>, from: nat, to: nat)
    requires length > 0 && from < |cells| && to < |cells| && Linked(length, cells)
    ensures Linked(length, Opened(cells, from, to))
  {
    OpenedLinks(cells, from, to);
    var r := Opened(cells, from, to);
    forall c: nat | c < |r|
      ensures LinkedAt(length, r, c)
    {
      assert LinkedAt(length, cells, c);
    }
  }

  /** Opening the wall between a cell and its right or bottom neighbour opens it from both sides. */
  lemma OpenedReciprocal(length: nat, cells: seq<Cell>, from: nat, to: nat)
    requires length > 0 && from < to < |cells| && Linked(length, cells) && Reciprocal(cells)
    requires cells[from].right == Some(to) || cells[from].bottom == Some(to)
    ensures Reciprocal(Opened(cells, from, to))
  {
    OpenedLinks(cells, from, to);
    var r := Opened(cells, from, to);
    assert LinkedAt(length, cells, from) && LinkedAt(length, cells, to);
    if length == 1 {
      assert from % 1 == 0 && to % 1 == 0 && (from + 1) % 1 == 0;
    }
    forall c: nat | c < |r|
      ensures ReciprocalAt(r, c)
    {
      assert ReciprocalAt(cells, c);
    }
  }

  /**
   * Opening the wall between a cell and its right or bottom neighbour keeps
   * the board well formed, opens that wall from both sides and opens no
   * other wall.
   */
  lemma OpenedWalls(length: nat, height: nat, cells: seq<Cell>, from: nat, to: nat)
    requires WellFormed(length, height, cells) && from < |cells|
    requires cells[from].right == Some(to) || cells[from].bottom == Some(to)
    ensures to < |cells| && from < to
    ensures WellFormed(length, height, Opened(cells, from, to))
    ensures forall a: nat, b: nat | a < |cells| ::
              (Opened(cells, from, to)[a].OpensTo(b)
               <==> cells[a].OpensTo(b) || (a == from && b == to) || (a == to && b == from))
  {
    LinkedForward(length, height, cells, from, to);
    OpenedLinked(length, cells, from, to);
    OpenedReciprocal(length, cells, from, to);
    assert LinkedAt(length, cells, from) && LinkedAt(length, cells, to);
    if length == 1 {
      assert from % 1 == 0 && to % 1 == 0 && (from + 1) % 1 == 0;
    }
  }

  /** Recolouring keeps a connected board connected. */
  lemma ShapeKeepsConnected(length: nat, height: nat, cells: seq<Cell>, other: seq<Cell>)
    requires WellFormed(length, height, cells) && SameShape(cells, other) && AllConnected(cells)
    ensures AllConnected(other)
  {
    ShapeKeepsWellFormed(length, height, cells, other);
    forall x: nat, y: nat | x < |other| && y < |other|
      ensures Connected(other, x, y)
    {
      assert Connected(cells, x, y);
      var p: seq<nat> :| IsWalk(cells, p) && p[0] == x && Last(p) == y;
      WalkWiden(cells, other, p);
    }
  }

  /** Colours play no part in the form of a board. */
  lemma ShapeKeepsWellFormed(length: nat, height: nat, cells: seq<Cell>, other: seq<Cell>)
    requires WellFormed(length, height, cells) && SameShape(cells, other)
    ensures WellFormed(length, height, other)
    ensures forall a: nat, b: nat | a < |cells| :: other[a].OpensTo(b) <==> cells[a].OpensTo(b)
  {
    forall c: nat | c < |cells|
      ensures LinkedAt(length, other, c) && ReciprocalAt(other, c)
    {
      assert Shape(other[c]) == Shape(cells[c]);
      assert LinkedAt(length, cells, c) && ReciprocalAt(cells, c);
      var cell := cells[c];
      if cell.left.Some? && cell.left.value < |cells| { assert Shape(other[cell.left.value]) == Shape(cells[cell.left.value]); }
      if cell.top.Some? && cell.top.value < |cells| { assert Shape(other[cell.top.value]) == Shape(cells[cell.top.value]); }
      if cell.right.Some? && cell.right.value < |cells| { assert Shape(other[cell.right.value]) == Shape(cells[cell.right.value]); }
      if cell.bottom.Some? && cell.bottom.value < |cells| { assert Shape(other[cell.bottom.value]) == Shape(cells[cell.bottom.value]); }
    }
    forall a: nat, b: nat | a < |cells|
      ensures other[a].OpensTo(b) <==> cells[a].OpensTo(b)
    {
      assert Shape(other[a]) == Shape(cells[a]);
    }
  }
}
