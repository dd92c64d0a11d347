// The Maze world: its fields and the handlers the game loop calls (onTick,
// onKeyEvent) together with mazeStep, arrowPress, resetSolution and
// HashMapUtils.findCorrectPath.  Every method is proved to leave the fields
// as the matching function of module Search says, applied to the session
// the fields held before the call; Search proves what those functions keep.

module Game {
  import opened Seqs
  import opened Grid
  import opened Edges
  import opened Frontiers
  import opened Paths
  import opened Boards
  import opened Search

  /**
   * HashMapUtils.findCorrectPath: paints the start Green, then every cell
   * on the way back from the start to `current`, and returns the cells from
   * current back to the start.
   */
  method FindCorrectPath(board: Board, cameFrom: seq<Option<nat>>, ghost rank: seq<nat>,
                         start: nat, current: nat) returns (path: seq<nat>)
    requires Chains(cameFrom, rank, start) && current < |cameFrom| && cameFrom[current].Some?
    requires |board.cells| == |cameFrom|
    modifies board
    ensures path == CorrectPath(cameFrom, rank, start, current)
    ensures board.cells == Painted(old(board.cells), path)
    decreases rank[current]
  {
    if current == start {
      board.ChangeColor(start, Green);
      path := [start];
      PaintedCons(old(board.cells), start, []);
      assert Painted(old(board.cells), []) == old(board.cells);
    } else {
      var tail := FindCorrectPath(board, cameFrom, rank, start, cameFrom[current].value);
      board.ChangeColor(current, Green);
      path := [current] + tail;
      PaintedCons(old(board.cells), current, tail);
    }
  }

  /**
   * What initilizeBoard promises of a board it drew: if the drawing
   * finished, the open walls form a spanning tree (one fewer than the
   * cells, and every cell reaches every other); a board one cell wide or
   * high never finishes, as the last wall of the pool is never drawn.
   */
  ghost predicate DrawnAs(length: nat, height: nat, cells: seq<Cell>, outcome: Outcome)
  {
    length > 0
    && (outcome.Built? ==>
          |OpenEdges(cells, GridEdges(length, |cells|))| == |cells| - 1 && AllConnected(cells))
    && ((length == 1 || height == 1) && |cells| >= 2 ==> !outcome.Built?)
  }

  class Maze {
    var board: Board
    const length: nat
    const height: nat
    var state: State
    var worklist: Frontier<nat>
    var visited: seq<bool>
    var cameFrom: seq<Option<nat>>
    var target: nat
    /** Ranks ordering the recorded origins, as Paths.Chains asks. */
    ghost var rank: seq<nat>
    /** How the first board came about: Some(outcome) when drawn, None when handed in. */
    ghost const firstDrawing: Option<Outcome>

    /** The fields as a Search session. */
    ghost function Model(): Session
      reads this, board, worklist
    {
      Session(length, height, board.cells, state, worklist.kind, worklist.contents,
              visited, cameFrom, target)
    }

    /** The board has the maze's size, and the search invariant holds unless at rest. */
    ghost predicate Consistent()
      reads this, board, worklist
    {
      board.length == length && board.height == height && Search.Ready(Model(), rank)
    }

    /** Consistent, and in Manual the worklist holds exactly the current cell. */
    ghost predicate Valid()
      reads this, board, worklist
    {
      Consistent() && Playable(Model(), rank)
    }

    /**
     * Maze(length, height): a board carved from the draws of `pick`, at
     * rest.  The other fields stay unset in the game; here they are an
     * empty queue and empty tables.
     */
    constructor (length: nat, height: nat, pick: (nat, nat) -> nat, fuel: nat)
      requires length > 0 && height > 0
      requires forall k: nat, bound: nat :: 0 < bound ==> pick(k, bound) < bound
      ensures Valid() && state == Rest && this.length == length && this.height == height
      ensures fresh(board) && firstDrawing.Some? && DrawnAs(length, height, board.cells, firstDrawing.value)
      ensures forall c | 0 <= c < |board.cells| :: board.cells[c].color == StartColor(|board.cells|, c)
    {
      var b, outcome := InitializeBoard(length, height, pick, fuel);
      this.length := length;
      this.height := height;
      board := b;
      state := Rest;
      worklist := new Frontier<nat>(Queue);
      visited := [];
      cameFrom := [];
      target := 0;
      rank := [];
      firstDrawing := Some(outcome);
    }

    /** Maze(board, length, height, cellSize): the given board, at rest. */
    constructor Of(board: Board)
      requires board.Valid()
      ensures Valid() && state == Rest && this.board == board
      ensures length == board.length && height == board.height && firstDrawing == None
    {
      this.board := board;
      length := board.length;
      height := board.height;
      state := Rest;
      worklist := new Frontier<nat>(Queue);
      visited := [];
      cameFrom := [];
      target := 0;
      rank := [];
      firstDrawing := None;
    }

    /**
     * mazeStep: the fields afterwards are Search.Step of the fields before,
     * and the search invariant is kept.  The worklist must not be empty
     * outside Rest (remove would throw).
     */
    method MazeStep()
      requires Consistent() && (state != Rest ==> worklist.contents != [])
      modifies this, board, worklist
      ensures Consistent() && board == old(board) && worklist == old(worklist)
      ensures Model() == Step(old(Model()), old(rank))
    {
      ghost var s := Model();
      assert Search.Ready(s, rank);
      if state != Rest {
        var c := worklist.Remove();
        if visited[c] {
          assert Model() == Step(s, rank);
        } else if c == target {
          var path := FindCorrectPath(board, cameFrom, rank, Start, target);
          state := Rest;
          assert Model() == Step(s, rank);
        } else {
          visited := visited[c := true];
          board.ChangeColor(c, Pink);
          var ns := board.cells[c].Neighbors();
          assert ns == s.cells[c].Neighbors();
          NeighborsOnBoard(length, height, s.cells, c);
          Discover(c, ns);
          StepExplores(s, rank);
          assert Model() == Explored(s);
        }
      }
      rank := StepReady(s, rank);
    }

    /**
     * mazeStep's loop over the neighbours ns of the cell c it visits: each
     * unvisited neighbour gets c as origin unless it has one and, in Auto,
     * is added to the worklist, in the order ns lists them.
     */
    method Discover(c: nat, ns: seq<Option<nat>>)
      requires |cameFrom| == |visited|
      requires forall k | 0 <= k < |ns| :: ns[k].Some? && ns[k].value < |visited|
      modifies this, worklist
      ensures board == old(board) && worklist == old(worklist) && state == old(state)
      ensures visited == old(visited) && target == old(target) && rank == old(rank)
      ensures cameFrom == Adopted(visited, old(cameFrom), c, ns)
      ensures worklist.contents ==
                if state == Auto then AddAll(worklist.kind, old(worklist.contents), Unvisited(visited, ns))
                else old(worklist.contents)
    {
      ghost var kind, w0, cf0 := worklist.kind, worklist.contents, cameFrom;
      var k := 0;
      while k < |ns|
        invariant 0 <= k <= |ns|
        invariant board == old(board) && worklist == old(worklist) && state == old(state)
        invariant visited == old(visited) && target == old(target) && rank == old(rank)
        invariant cameFrom == Adopted(visited, cf0, c, ns[..k])
        invariant state == Auto ==> worklist.contents == AddAll(kind, w0, Unvisited(visited, ns[..k]))
        invariant state != Auto ==> worklist.contents == w0
      {
        var n := ns[k].value;
        ghost var us := Unvisited(visited, ns[..k]);
        UnvisitedSnoc(visited, ns, k);
        AdoptedSnoc(visited, cf0, c, ns, k);
        if !visited[n] {
          cameFrom := PutIfAbsent(cameFrom, n, c);
          if state == Auto {
            worklist.Add(n);
            AddAllSnoc(kind, w0, us, n);
            assert worklist.contents == AddAll(kind, w0, us + [n]);
          }
        }
        k := k + 1;
      }
      assert ns[..|ns|] == ns;
    }

    /**
     * arrowPress: the fields afterwards are Search.Press of the fields
     * before; the game stays playable, and only colours change on the board.
     */
    method ArrowPress(key: string)
      requires Valid()
      modifies this, board, worklist
      ensures board == old(board)
      ensures Model() == Press(old(Model()), key, old(rank))
      ensures Valid()
      ensures SameShape(old(board.cells), board.cells)
    {
      ghost var s := Model();
      ghost var rank0 := rank;
      if state == Manual {
        var prev := worklist.Remove();
        var next := board.cells[prev].FindNext(key);
        if next.Some? {
          var c := next.value;
          MovedReady(s, rank0, key);
          board.ChangeColor(prev, LightPink);
          board.ChangeColor(c, Pink);
          cameFrom := PutIfAbsent(cameFrom, c, prev);
          worklist.Add(c);
          worklist.Add(c);
          rank := MovedRank(s, rank0, c);
          assert board.cells == Recolor(Recolor(s.cells, prev, LightPink), c, Pink);
          assert worklist.contents == Added(s.kind, Added(s.kind, s.frontier[1..], c), c);
          assert Model() == Moved(s, c);
          MazeStep();
          assert Press(s, key, rank0) == Step(Moved(s, c), MovedRank(s, rank0, c));
        } else {
          worklist.Add(prev);
          assert Press(s, key, rank0) == s.(frontier := Added(s.kind, s.frontier[1..], prev));
        }
      } else {
        state := Manual;
        var q := new Frontier<nat>(Queue);
        ResetSolution(q);
        assert Press(s, key, rank0) == Reset(s.(state := Manual), Queue, []);
      }
      rank := PressPlayable(s, key, rank0);
    }

    /**
     * resetSolution(w): the fields afterwards are Search.Reset of the
     * fields before with w's kind and contents; w becomes the worklist.
     */
    method ResetSolution(w: Frontier<nat>)
      requires |board.cells| >= 1
      modifies this, board, w
      ensures board == old(board) && worklist == w
      ensures Model() == Reset(old(Model()), w.kind, old(w.contents))
      ensures rank == old(rank)
    {
      ghost var s := Model();
      ghost var held := w.contents;
      worklist := w;
      visited := [];
      var n := |board.cells|;
      cameFrom := NoOrigins(n);
      target := n - 1;
      var k := 0;
      while k < n
        invariant 0 <= k <= n && worklist == w && w.contents == held
        invariant board == old(board) && rank == old(rank) && state == old(state)
        invariant cameFrom == NoOrigins(n) && target == n - 1
        invariant visited == Unseen(k)
        invariant board.cells == Grayed(s.cells, k)
      {
        visited := visited + [false];
        board.ChangeColor(k, Gray);
        GrayedStep(s.cells, k);
        k := k + 1;
      }
      worklist.Add(Start);
      cameFrom := cameFrom[Start := Some(Start)];
      board.ChangeColor(Start, Pink);
      board.ChangeColor(n - 1, Green);
      Repainted(s.cells);
      assert board.cells == Restarted(s.cells) && worklist.contents == Added(w.kind, held, Start);
      assert Model() == Reset(s, w.kind, held);
    }

    /** onTick: the fields afterwards are Search.Tick of the fields before. */
    method OnTick()
      requires Valid() && (state == Auto ==> worklist.contents != [])
      modifies this, board, worklist
      ensures Valid() && board == old(board) && worklist == old(worklist)
      ensures Model() == Tick(old(Model()), old(rank))
      ensures SameShape(old(board.cells), board.cells)
      ensures AllConnected(old(board.cells)) ==> AllConnected(board.cells)
    {
      ghost var s := Model();
      ghost var rank0 := rank;
      if state == Auto {
        MazeStep();
      }
      rank := TickPlayable(s, rank0);
      if AllConnected(s.cells) {
        ShapeKeepsConnected(length, height, s.cells, board.cells);
      }
    }

    /**
     * On a connected board an automatic search always has a cell to work
     * on, so onTick never meets an empty worklist.
     */
    lemma AutoHasWork()
      requires Valid() && state == Auto && AllConnected(board.cells)
      ensures worklist.contents != []
    {
      Progress(Model(), rank);
    }

    /**
     * onKeyEvent: the fields afterwards are Search.KeyEvent of the fields
     * before, "r" drawing the new board from `pick` with the outcome
     * `drawing`.  The game stays playable; any key but "r" keeps the board
     * and changes only colours, so a connected board stays connected.
     */
    method OnKeyEvent(key: string, pick: (nat, nat) -> nat, fuel: nat) returns (ghost drawing: Option<Outcome>)
      requires Valid()
      requires forall k: nat, bound: nat :: 0 < bound ==> pick(k, bound) < bound
      modifies this, board, worklist
      ensures Valid()
      ensures Model() == KeyEvent(old(Model()), key, old(rank), board.cells)
      ensures key == "r" ==> fresh(board) && drawing.Some? && DrawnAs(length, height, board.cells, drawing.value)
                             && forall c | 0 <= c < |board.cells| ::
                                  board.cells[c].color == StartColor(|board.cells|, c)
      ensures key != "r" ==> board == old(board) && SameShape(old(board.cells), board.cells) && drawing == None
                             && (AllConnected(old(board.cells)) ==> AllConnected(board.cells))
    {
      drawing := None;
      ghost var s := Model();
      ghost var rank0 := rank;
      if key == "d" {
        state := Auto;
        MulMono(height, length);
        var st := new Frontier<nat>(Stack);
        ResetSolution(st);
      } else if key == "b" {
        state := Auto;
        MulMono(height, length);
        var q := new Frontier<nat>(Queue);
        ResetSolution(q);
      } else if key == "r" {
        MulMono(height, length);
        var b, outcome := InitializeBoard(length, height, pick, fuel);
        board := b;
        state := Rest;
        drawing := Some(outcome);
      } else if IsArrow(key) {
        ArrowPress(key);
      }
      rank := KeyPlayable(s, key, rank0, board.cells);
      if key != "r" && AllConnected(s.cells) {
        ShapeKeepsConnected(length, height, s.cells, board.cells);
      }
    }
  }
}
