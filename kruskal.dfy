// What stays true while ArrayListUtils.createMaze runs: the state of the
// randomized Kruskal loop (representatives, remaining edges, edges used) and
// what each accepted edge does to it.

module Kruskal {
  import opened Seqs
  import opened Grid
  import opened Edges
  import opened UnionFind

  /** Each cell has a walk through open walls to its representative. */
  ghost predicate Walks(cells: seq<Cell>, reps: seq<nat>, depth: seq<nat>, toRoot: seq<seq<nat>>)
    requires Forest(reps, depth)
  {
    |toRoot| == |reps|
    && forall x: nat {:trigger toRoot[x]} | x < |reps| ::
      IsWalk(cells, toRoot[x]) && toRoot[x][0] == x && Last(toRoot[x]) == Find(reps, depth, x)
  }

  /**
   * The loop invariant of createMaze.  The pool holds, once each, exactly
   * the listed walls that are still closed; the open walls are the edges
   * used so far, one per representative merged away; every cell reaches its
   * representative through open walls; and the last listed wall is still
   * the last of the pool (the draw `nextInt(size - 1)` never reaches it).
   */
  ghost predicate Invariant(length: nat, height: nat, cells: seq<Cell>, reps: seq<nat>,
                            depth: seq<nat>, pool: seq<Edge>, numEdges: nat, toRoot: seq<seq<nat>>)
  {
    WellFormed(length, height, cells)
    && Forest(reps, depth) && |reps| == |cells|
    && |Roots(reps)| + numEdges == |cells|
    && Distinct(pool)
    && (forall e :: e in pool <==> e in GridEdges(length, |cells|) && !Opens(cells, e.from, e.to))
    && (forall k | 0 <= k < |pool| :: pool[k].from < |cells| && pool[k].to < |cells|)
    && |OpenEdges(cells, GridEdges(length, |cells|))| == numEdges
    && Walks(cells, reps, depth, toRoot)
    && (|cells| >= 2 ==> GridEdges(length, |cells|) != [] && pool != []
                         && Last(pool) == Last(GridEdges(length, |cells|)))
  }

  /** Every cell its own representative. */
  function Identity(n: nat): (r: seq<nat>)
    ensures |r| == n && forall x | 0 <= x < n :: r[x] == x
  {
    seq(n, x => x)
  }

  ghost function Zeros(n: nat): seq<nat>
  {
    seq(n, x => 0)
  }

  ghost function Alone(n: nat): seq<seq<nat>>
  {
    seq(n, x => [x])
  }

  /** Before the loop every listed wall is closed and none is open. */
  lemma StartPool(length: nat, height: nat, cells: seq<Cell>)
    requires WellFormed(length, height, cells) && AllClosed(cells)
    ensures Distinct(GridEdges(length, |cells|))
    ensures forall e :: e in GridEdges(length, |cells|) <==>
              e in GridEdges(length, |cells|) && !Opens(cells, e.from, e.to)
    ensures forall k | 0 <= k < |GridEdges(length, |cells|)| ::
              GridEdges(length, |cells|)[k].from < |cells| && GridEdges(length, |cells|)[k].to < |cells|
    ensures |OpenEdges(cells, GridEdges(length, |cells|))| == 0
  {
    var n := |cells|;
    GridEdgesExact(length, n);
    GridEdgesDistinct(length, n);
    assert OpenEdges(cells, GridEdges(length, n)) == {};
    var pool := GridEdges(length, n);
    forall k | 0 <= k < |pool|
      ensures pool[k].from < n && pool[k].to < n
    {
      assert pool[k] in pool;
    }
  }

  /** Every cell is its own representative and the one-cell walk reaches it. */
  lemma StartWalks(cells: seq<Cell>)
    ensures Forest(Identity(|cells|), Zeros(|cells|))
    ensures Walks(cells, Identity(|cells|), Zeros(|cells|), Alone(|cells|))
  {
    var n := |cells|;
    forall x: nat | x < n
      ensures IsWalk(cells, Alone(n)[x]) && Alone(n)[x][0] == x
      ensures Last(Alone(n)[x]) == Find(Identity(n), Zeros(n), x)
    {
      assert Alone(n)[x] == [x];
    }
  }

  /** Before the loop: every cell its own representative, every wall in the pool, none used. */
  lemma Start(length: nat, height: nat, cells: seq<Cell>)
    requires WellFormed(length, height, cells) && AllClosed(cells)
    ensures Invariant(length, height, cells, Identity(|cells|), Zeros(|cells|),
                      GridEdges(length, |cells|), 0, Alone(|cells|))
  {
    var n := |cells|;
    var reps := Identity(n);
    StartPool(length, height, cells);
    assert Roots(reps) == CellSet(n);
    if n >= 2 {
      LastGridEdge(length, n);
    }
    StartWalks(cells);
  }

  /**
   * A walk to the end of q, back along q to its start, across an open wall
   * and along r is a walk.
   */
  lemma Detour(length: nat, height: nat, cells: seq<Cell>, p: seq<nat>, q: seq<nat>, r: seq<nat>)
    requires WellFormed(length, height, cells) && IsWalk(cells, p) && IsWalk(cells, q) && IsWalk(cells, r)
    requires Last(p) == Last(q) && Opens(cells, q[0], r[0])
    ensures IsWalk(cells, p + (Reverse(q)[1..] + r))
    ensures (p + (Reverse(q)[1..] + r))[0] == p[0] && Last(p + (Reverse(q)[1..] + r)) == Last(r)
  {
    WalkReverse(length, height, cells, q);
    var rq := Reverse(q);
    assert |rq| == |q| && rq[0] == Last(q) && Last(rq) == q[0];
    WalkJoin(cells, p, rq);
    WalkStep(cells, p + rq[1..], r);
    assert p + (rq[1..] + r) == (p + rq[1..]) + r;
  }

  /** The walks with every walk that ends in cell `end` continued by `tail`. */
  ghost function Extended(toRoot: seq<seq<nat>>, end: nat, tail: seq<nat>): seq<seq<nat>>
  {
    seq(|toRoot|, x requires 0 <= x < |toRoot| =>
      if toRoot[x] != [] && Last(toRoot[x]) == end then toRoot[x] + tail else toRoot[x])
  }

  /**
   * After the wall between u and v opens, the walks, rerouted through it for
   * the tree that moves, lead to each cell's representative after the merge.
   */
  lemma Reroot(length: nat, height: nat, cells: seq<Cell>, cells': seq<Cell>,
               reps: seq<nat>, depth: seq<nat>, toRoot: seq<seq<nat>>, u: nat, v: nat)
    returns (toRoot': seq<seq<nat>>)
    requires WellFormed(length, height, cells') && |cells'| == |cells|
    requires forall a: nat, b: nat | a < |cells| && cells[a].OpensTo(b) :: cells'[a].OpensTo(b)
    requires Opens(cells', v, u)
    requires Forest(reps, depth) && u < |reps| && v < |reps| && Walks(cells, reps, depth, toRoot)
    ensures |toRoot'| == |reps|
    ensures forall x {:trigger toRoot'[x]} | 0 <= x < |reps| ::
              IsWalk(cells', toRoot'[x]) && toRoot'[x][0] == x
              && Last(toRoot'[x]) == Moved(reps, depth, Find(reps, depth, u), Find(reps, depth, v), x)
  {
    var q, w := toRoot[v], toRoot[u];
    assert IsWalk(cells, q) && q[0] == v && Last(q) == Find(reps, depth, v);
    assert IsWalk(cells, w) && w[0] == u && Last(w) == Find(reps, depth, u);
    WalkWiden(cells, cells', q);
    WalkWiden(cells, cells', w);
    var rq := Reverse(q);
    assert |rq| == |q|;
    var tail := rq[1..] + w;
    toRoot' := Extended(toRoot, Find(reps, depth, v), tail);
    forall x: nat | x < |reps|
      ensures IsWalk(cells', toRoot'[x]) && toRoot'[x][0] == x
      ensures Last(toRoot'[x]) == Moved(reps, depth, Find(reps, depth, u), Find(reps, depth, v), x)
    {
      var p := toRoot[x];
      assert IsWalk(cells, p) && p[0] == x && Last(p) == Find(reps, depth, x);
      WalkWiden(cells, cells', p);
      if Find(reps, depth, x) == Find(reps, depth, v) {
        Detour(length, height, cells', p, q, w);
        assert toRoot'[x] == p + tail;
      } else {
        assert toRoot'[x] == p;
      }
    }
  }

  /** Walks to the merged representatives are walks to the representatives after the union. */
  lemma Relabel(cells: seq<Cell>, reps: seq<nat>, depth: seq<nat>, reps': seq<nat>,
                depth': seq<nat>, toRoot: seq<seq<nat>>, a: nat, b: nat)
    requires Forest(reps, depth) && Forest(reps', depth') && |reps'| == |reps|
    requires forall x | 0 <= x < |reps| :: Find(reps', depth', x) == Moved(reps, depth, a, b, x)
    requires |toRoot| == |reps|
    requires forall x {:trigger toRoot[x]} | 0 <= x < |reps| ::
               IsWalk(cells, toRoot[x]) && toRoot[x][0] == x && Last(toRoot[x]) == Moved(reps, depth, a, b, x)
    ensures Walks(cells, reps', depth', toRoot)
  {
  }

  /**
   * Opening the wall of the pool's edge at idx takes exactly that edge out
   * of the pool and adds it to the open edges.
   */
  lemma AcceptEdge(length: nat, height: nat, cells: seq<Cell>, pool: seq<Edge>, idx: nat)
    requires WellFormed(length, height, cells) && Distinct(pool) && idx < |pool|
    requires forall e :: e in pool <==> e in GridEdges(length, |cells|) && !Opens(cells, e.from, e.to)
    ensures pool[idx].from < pool[idx].to < |cells|
    ensures cells[pool[idx].from].right == Some(pool[idx].to) || cells[pool[idx].from].bottom == Some(pool[idx].to)
    ensures forall e :: e in RemoveAt(pool, idx) <==>
              e in GridEdges(length, |cells|) && !Opens(Opened(cells, pool[idx].from, pool[idx].to), e.from, e.to)
    ensures |OpenEdges(Opened(cells, pool[idx].from, pool[idx].to), GridEdges(length, |cells|))|
            == |OpenEdges(cells, GridEdges(length, |cells|))| + 1
  {
    var n := |cells|;
    var E := GridEdges(length, n);
    var e := pool[idx];
    assert e in pool;
    GridEdgesExact(length, n);
    GridEdgeAdjacent(length, height, cells, e);
    OpenedWalls(length, height, cells, e.from, e.to);
    var cells' := Opened(cells, e.from, e.to);
    forall e' | e' in E
      ensures Opens(cells', e'.from, e'.to) <==> Opens(cells, e'.from, e'.to) || e' == e
    {
      assert IsGridEdge(length, n, e');
      GridEdgeAdjacent(length, height, cells, e');
    }
    assert OpenEdges(cells', E) == OpenEdges(cells, E) + {e};
    assert e !in OpenEdges(cells, E);
  }

  /**
   * An accepted edge (one whose ends have different representatives) opens
   * its wall, merges the two representatives, leaves the pool and counts as
   * used: the invariant holds again.
   */
  lemma Accept(length: nat, height: nat, cells: seq<Cell>, reps: seq<nat>, depth: seq<nat>,
               pool: seq<Edge>, numEdges: nat, toRoot: seq<seq<nat>>, idx: nat)
    returns (depth': seq<nat>, toRoot': seq<seq<nat>>)
    requires Invariant(length, height, cells, reps, depth, pool, numEdges, toRoot)
    requires idx < |pool| - 1
    requires Find(reps, depth, pool[idx].from) != Find(reps, depth, pool[idx].to)
    ensures pool[idx].from < pool[idx].to
    ensures Invariant(length, height, Opened(cells, pool[idx].from, pool[idx].to),
                      reps[Find(reps, depth, pool[idx].to) := Find(reps, depth, pool[idx].from)],
                      depth', RemoveAt(pool, idx), numEdges + 1, toRoot')
  {
    var n := |cells|;
    var u, v := pool[idx].from, pool[idx].to;
    AcceptEdge(length, height, cells, pool, idx);
    OpenedWalls(length, height, cells, u, v);
    var cells' := Opened(cells, u, v);
    var fr, tr := Find(reps, depth, u), Find(reps, depth, v);
    FindRoot(reps, depth, u);
    FindRoot(reps, depth, v);
    depth' := Union(reps, depth, fr, tr);
    var reps' := reps[tr := fr];
    var pool' := RemoveAt(pool, idx);
    assert |Roots(reps')| == |Roots(reps)| - 1;
    forall k | 0 <= k < |pool'|
      ensures pool'[k].from < n && pool'[k].to < n
    {
      assert pool'[k] in pool;
    }
    toRoot' := Reroot(length, height, cells, cells', reps, depth, toRoot, u, v);
    Relabel(cells', reps, depth, reps', depth', toRoot', fr, tr);
  }

  /** Two walks that end in the same cell connect their starting cells. */
  lemma MeetConnected(length: nat, height: nat, cells: seq<Cell>, p: seq<nat>, q: seq<nat>)
    requires WellFormed(length, height, cells) && IsWalk(cells, p) && IsWalk(cells, q) && Last(p) == Last(q)
    ensures Connected(cells, p[0], q[0])
  {
    WalkReverse(length, height, cells, q);
    WalkJoin(cells, p, Reverse(q));
  }

  /** Walks that all end in one cell connect every cell to every other. */
  lemma OneTree(length: nat, height: nat, cells: seq<Cell>, reps: seq<nat>, depth: seq<nat>,
                toRoot: seq<seq<nat>>, root: nat)
    requires WellFormed(length, height, cells) && Forest(reps, depth) && |reps| == |cells|
    requires (forall x | 0 <= x < |reps| :: Find(reps, depth, x) == root) && Walks(cells, reps, depth, toRoot)
    ensures AllConnected(cells)
  {
    forall x: nat, y: nat | x < |cells| && y < |cells|
      ensures Connected(cells, x, y)
    {
      MeetConnected(length, height, cells, toRoot[x], toRoot[y]);
    }
  }

  /**
   * When as many edges are used as there are cells minus one, a single
   * representative is left and every cell reaches every other: the open
   * walls form a spanning tree.
   */
  lemma Done(length: nat, height: nat, cells: seq<Cell>, reps: seq<nat>, depth: seq<nat>,
             pool: seq<Edge>, toRoot: seq<seq<nat>>)
    requires |cells| >= 1 && Invariant(length, height, cells, reps, depth, pool, |cells| - 1, toRoot)
    ensures |OpenEdges(cells, GridEdges(length, |cells|))| == |cells| - 1
    ensures AllConnected(cells)
  {
    var root := SameRoot(reps, depth);
    OneTree(length, height, cells, reps, depth, toRoot, root);
  }
}
