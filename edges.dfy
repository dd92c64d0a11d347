// The wall list the maze generator starts from: every cell, in board order,
// contributes the edge from its left neighbour and then the edge from its
// top neighbour (Cell.makeEdge applied to c.left and c.top).

module Edges {
  import opened Seqs
  import opened Grid

  /** The edges cell c contributes: from its left neighbour, then from its top one. */
  function CellEdges(length: nat, c: nat): seq<Edge>
    requires length > 0
  {
    (if Left(length, c).Some? then [Edge(c - 1, c)] else [])
    + (if Top(length, c).Some? then [Edge(c - length, c)] else [])
  }

  /** The edges contributed by the first n cells of the board, in order. */
  function GridEdges(length: nat, n: nat): seq<Edge>
    requires length > 0
  {
    if n == 0 then [] else GridEdges(length, n - 1) + CellEdges(length, n - 1)
  }

  /** e joins a cell among the first n to its left or its top neighbour. */
  ghost predicate IsGridEdge(length: nat, n: nat, e: Edge)
    requires length > 0
  {
    e.to < n && (Left(length, e.to) == Some(e.from) || Top(length, e.to) == Some(e.from))
  }

  /** The list holds exactly the pairs of horizontally or vertically adjacent cells. */
  lemma {:induction false} GridEdgesExact(length: nat, n: nat)
    requires length > 0
    ensures forall e :: e in GridEdges(length, n) <==> IsGridEdge(length, n, e)
  {
    if n > 0 {
      GridEdgesExact(length, n - 1);
      assert forall e :: e in GridEdges(length, n) <==> e in GridEdges(length, n - 1) || e in CellEdges(length, n - 1);
    }
  }

  /** No wall occurs twice in the list. */
  lemma {:induction false} GridEdgesDistinct(length: nat, n: nat)
    requires length > 0
    ensures Distinct(GridEdges(length, n))
  {
    if n > 0 {
      GridEdgesDistinct(length, n - 1);
      GridEdgesExact(length, n - 1);
      var old_ := GridEdges(length, n - 1);
      var new_ := CellEdges(length, n - 1);
      if length == 1 {
        assert (n - 1) % 1 == 0;
      }
      assert Distinct(new_);
      assert forall e | e in new_ :: e.to == n - 1;
      forall i | 0 <= i < |old_|
        ensures old_[i].to < n - 1
      {
        assert old_[i] in old_;
      }
      var all := old_ + new_;
      forall i, j | 0 <= i < j < |all|
        ensures all[i] != all[j]
      {
        if j < |old_| {
          assert all[i] == old_[i] && all[j] == old_[j];
        } else if i >= |old_| {
          assert all[i] == new_[i - |old_|] && all[j] == new_[j - |old_|];
        } else {
          assert all[i] == old_[i] && all[j] == new_[j - |old_|];
          assert old_[i] in old_;
        }
      }
    }
  }

  /** Left edges among the first p cells: all but the first cell of every complete or started row. */
  ghost function HorizontalCount(length: nat, p: nat): int
    requires length > 0
  {
    (p / length) * (length - 1) + (if p % length > 0 then p % length - 1 else 0)
  }

  /** Top edges among the first p cells: every cell past the first row. */
  ghost function VerticalCount(length: nat, p: nat): nat
  {
    if p >= length then p - length else 0
  }

  lemma HorizontalStep(length: nat, c: nat)
    requires length > 0
    ensures HorizontalCount(length, c + 1) == HorizontalCount(length, c) + (if c % length != 0 then 1 else 0)
  {
    var q, r := c / length, c % length;
    var row := q * (length - 1);
    if r + 1 < length {
      DivModUnique(c + 1, length, q, r + 1);
    } else {
      DivModUnique(c + 1, length, q + 1, 0);
      assert (q + 1) * (length - 1) == row + (length - 1);
    }
  }

  lemma {:induction false} GridEdgesCountUpTo(length: nat, p: nat)
    requires length > 0
    ensures |GridEdges(length, p)| == HorizontalCount(length, p) + VerticalCount(length, p)
  {
    if p > 0 {
      GridEdgesCountUpTo(length, p - 1);
      HorizontalStep(length, p - 1);
      assert |CellEdges(length, p - 1)| == (if (p - 1) % length != 0 then 1 else 0) + (if p - 1 >= length then 1 else 0);
    }
  }

  /** A length x height board has length*(height-1) + height*(length-1) inner walls. */
  lemma GridEdgesCount(length: nat, height: nat)
    requires length > 0 && height > 0
    ensures |GridEdges(length, length * height)| == length * (height - 1) + height * (length - 1)
  {
    var p := length * height;
    GridEdgesCountUpTo(length, p);
    assert p == height * length + 0;
    DivModUnique(p, length, height, 0);
    MulMono(height, length);
    assert length * (height - 1) == p - length;
  }

  /** On a well-formed board every listed edge leads from a cell to its right or bottom neighbour. */
  lemma GridEdgeAdjacent(length: nat, height: nat, cells: seq<Cell>, e: Edge)
    requires WellFormed(length, height, cells) && IsGridEdge(length, |cells|, e)
    ensures e.from < e.to < |cells|
    ensures cells[e.from].right == Some(e.to) || cells[e.from].bottom == Some(e.to)
  {
    assert LinkedAt(length, cells, e.from);
    if Left(length, e.to) == Some(e.from) {
      assert (e.from + 1) % length != 0;
    }
  }

  /** With at least two cells the last listed edge enters the last cell from its top, or else from its left. */
  lemma LastGridEdge(length: nat, n: nat)
    requires length > 0 && n >= 2
    ensures GridEdges(length, n) != []
    ensures Last(GridEdges(length, n)) ==
              if n - 1 >= length then Edge(n - 1 - length, n - 1) else Edge(n - 2, n - 1)
  {
    var c := n - 1;
    if c < length {
      DivModUnique(c, length, 0, c);
    }
  }

  /**
   * On a board of one row or one column, the last cell's only neighbour is
   * the cell before it; while the last listed wall stays closed, the last
   * cell cannot be reached from the first.
   */
  lemma LineCutOff(length: nat, height: nat, cells: seq<Cell>)
    requires WellFormed(length, height, cells) && (length == 1 || height == 1) && |cells| >= 2
    requires GridEdges(length, |cells|) != []
    requires !Opens(cells, Last(GridEdges(length, |cells|)).from, Last(GridEdges(length, |cells|)).to)
    ensures !Connected(cells, 0, |cells| - 1)
  {
    var n := |cells|;
    LastGridEdge(length, n);
    if Connected(cells, 0, n - 1) {
      var p: seq<nat> :| IsWalk(cells, p) && p[0] == 0 && Last(p) == n - 1;
      var q := p[|p| - 2];
      assert cells[q].OpensTo(n - 1);
      OpensSymmetric(length, height, cells, q, n - 1);
      assert LinkedAt(length, cells, n - 1);
      if height == 1 {
        DivModUnique(n - 1, length, 0, n - 1);
      }
      assert false;
    }
  }
}
