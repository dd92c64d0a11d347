// The cameFrom table of the solver and the path it records
// (HashMapUtils.findCorrectPath).  Every cell name of the board is a valid
// index, so the table is a sequence indexed by cell: entry x is Some(origin)
// once x has been reached from `origin`, and None before.  The ghost rank
// sequence numbers the reached cells so that every origin has a smaller
// rank than the cell it leads to (the start excepted), which is why
// following origins from any reached cell ends at the start.

module Paths {
  import opened Seqs
  import opened Grid

  /** cameFrom.putIfAbsent(key, value): the first origin recorded for a cell is kept. */
  function PutIfAbsent(cameFrom: seq<Option<nat>>, key: nat, value: nat): (r: seq<Option<nat>>)
    requires key < |cameFrom|
    ensures |r| == |cameFrom| && r[key].Some?
    ensures cameFrom[key].None? ==> r[key] == Some(value)
    ensures forall x | 0 <= x < |r| && (x != key || cameFrom[x].Some?) :: r[x] == cameFrom[x]
  {
    if cameFrom[key].None? then cameFrom[key := Some(value)] else cameFrom
  }

  /** The table says `child` was reached from `origin`. */
  ghost predicate Parent(cameFrom: seq<Option<nat>>, child: nat, origin: nat)
  {
    child < |cameFrom| && cameFrom[child] == Some(origin)
  }

  /**
   * The recorded origins lead back to `start`: start is its own origin, a
   * cell has a positive rank exactly when it has an origin, an origin has
   * an origin itself, and (start aside) has a smaller rank.
   */
  ghost predicate Chains(cameFrom: seq<Option<nat>>, rank: seq<nat>, start: nat)
  {
    |rank| == |cameFrom| && start < |cameFrom| && cameFrom[start] == Some(start)
    && forall x {:trigger cameFrom[x]} | 0 <= x < |cameFrom| ::
         (cameFrom[x].Some? <==> rank[x] > 0)
         && (cameFrom[x].Some? ==>
               cameFrom[x].value < |cameFrom| && rank[cameFrom[x].value] > 0
               && (x != start ==> rank[cameFrom[x].value] < rank[x]))
  }

  /** Every recorded origin (start aside) is open towards the cell it leads to. */
  ghost predicate Tree(cells: seq<Cell>, cameFrom: seq<Option<nat>>, start: nat)
  {
    forall x {:trigger cameFrom[x]} | 0 <= x < |cameFrom| && x != start && cameFrom[x].Some? ::
      Opens(cells, cameFrom[x].value, x)
  }

  /**
   * findCorrectPath's result: current, its origin, that one's origin, and
   * so on up to start.  Every cell on it but the last is not the start, and
   * each is followed by its origin.
   */
  function CorrectPath(cameFrom: seq<Option<nat>>, ghost rank: seq<nat>, start: nat, current: nat)
    : (path: seq<nat>)
    requires Chains(cameFrom, rank, start) && current < |cameFrom| && cameFrom[current].Some?
    ensures |path| >= 1 && path[0] == current && Last(path) == start
    ensures forall k | 0 <= k < |path| :: path[k] < |cameFrom| && cameFrom[path[k]].Some?
    ensures forall k | 0 <= k < |path| - 1 :: path[k] != start && Parent(cameFrom, path[k], path[k + 1])
    decreases rank[current]
  {
    if current == start then [start]
    else
      var tail := CorrectPath(cameFrom, rank, start, cameFrom[current].value);
      assert forall k | 1 <= k < |tail| + 1 :: ([current] + tail)[k] == tail[k - 1];
      [current] + tail
  }

  /** The ranks fall strictly along a path, so no cell appears on it twice. */
  lemma {:induction false} PathDistinct(cameFrom: seq<Option<nat>>, rank: seq<nat>, start: nat, current: nat)
    requires Chains(cameFrom, rank, start) && current < |cameFrom| && cameFrom[current].Some?
    ensures Distinct(CorrectPath(cameFrom, rank, start, current))
    ensures forall k | 0 <= k < |CorrectPath(cameFrom, rank, start, current)| ::
              rank[CorrectPath(cameFrom, rank, start, current)[k]] <= rank[current]
    decreases rank[current]
  {
    var path := CorrectPath(cameFrom, rank, start, current);
    if current != start {
      var origin := cameFrom[current].value;
      PathDistinct(cameFrom, rank, start, origin);
      var tail := CorrectPath(cameFrom, rank, start, origin);
      assert path == [current] + tail;
      assert rank[origin] < rank[current];
      forall k | 0 <= k < |tail|
        ensures tail[k] != current
      {
        assert rank[tail[k]] <= rank[origin];
      }
      forall i, j | 0 <= i < j < |path|
        ensures path[i] != path[j]
      {
        if i > 0 {
          assert path[i] == tail[i - 1] && path[j] == tail[j - 1];
        } else {
          assert path[j] == tail[j - 1];
        }
      }
      forall k | 0 <= k < |path|
        ensures rank[path[k]] <= rank[current]
      {
        if k > 0 {
          assert path[k] == tail[k - 1];
        }
      }
    }
  }

  /**
   * When every origin is open towards its cell, the path back from a cell
   * is a walk through open walls from that cell to the start.
   */
  lemma PathIsWalk(length: nat, height: nat, cells: seq<Cell>, cameFrom: seq<Option<nat>>,
                   rank: seq<nat>, start: nat, current: nat)
    requires WellFormed(length, height, cells) && |cameFrom| == |cells|
    requires Chains(cameFrom, rank, start) && Tree(cells, cameFrom, start)
    requires current < |cameFrom| && cameFrom[current].Some?
    ensures IsWalk(cells, CorrectPath(cameFrom, rank, start, current))
  {
    var path := CorrectPath(cameFrom, rank, start, current);
    forall k | 0 <= k < |path| - 1
      ensures Opens(cells, path[k], path[k + 1])
    {
      assert Parent(cameFrom, path[k], path[k + 1]) && path[k] != start;
      assert Opens(cells, path[k + 1], path[k]);
      OpensSymmetric(length, height, cells, path[k + 1], path[k]);
    }
  }

  /** The board with every cell on `path` painted Green and nothing else changed. */
  function Painted(cells: seq<Cell>, path: seq<nat>): (r: seq<Cell>)
    ensures SameShape(cells, r)
    ensures forall k | 0 <= k < |r| :: r[k].color == if k in path then Green else cells[k].color
  {
    seq(|cells|, k requires 0 <= k < |cells| => if k in path then cells[k].(color := Green) else cells[k])
  }

  /** Painting one more cell first and then the rest is painting the longer path. */
  lemma PaintedCons(cells: seq<Cell>, current: nat, path: seq<nat>)
    requires current < |cells|
    ensures Recolor(Painted(cells, path), current, Green) == Painted(cells, [current] + path)
  {
    var a := Recolor(Painted(cells, path), current, Green);
    var b := Painted(cells, [current] + path);
    assert forall k | 0 <= k < |cells| :: k in [current] + path <==> k == current || k in path;
    assert forall k | 0 <= k < |cells| :: a[k] == b[k];
  }
}
