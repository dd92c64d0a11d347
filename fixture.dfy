// The 3 x 3 board that createMaze carves with seed 4632, written out
// (the draws of java.util.Random are not modelled), and the breadth-first
// search that the tests of mazeStep and findCorrectPath run on it.  The
// open walls are 0-1, 1-2, 1-4, 3-4, 4-5, 4-7, 6-7 and 7-8, and the
// way from the start 0 to the target 8 runs through 1, 4 and 7.

module Fixtures {
  import opened Seqs
  import opened Grid
  import opened Frontiers
  import opened Paths
  import opened Boards
  import opened Search

  /** The seed-4632 board with the given colours, cell by cell. */
  function Layout4632(colors: seq<Color>): (cells: seq<Cell>)
    requires |colors| == 9
    ensures |cells| == 9
  {
    [ Cell(0, colors[0], None, None, Some(1), Some(3), false, false, true, false),
      Cell(1, colors[1], Some(0), None, Some(2), Some(4), true, false, true, true),
      Cell(2, colors[2], Some(1), None, None, Some(5), true, false, false, false),
      Cell(3, colors[3], None, Some(0), Some(4), Some(6), false, false, true, false),
      Cell(4, colors[4], Some(3), Some(1), Some(5), Some(7), true, true, true, true),
      Cell(5, colors[5], Some(4), Some(2), None, Some(8), true, false, false, false),
      Cell(6, colors[6], None, Some(3), Some(7), None, false, false, true, false),
      Cell(7, colors[7], Some(6), Some(4), Some(8), None, true, true, true, false),
      Cell(8, colors[8], Some(7), Some(5), None, None, true, false, false, false) ]
  }

  /** The board as initilizeBoard(3, 3, _, 4632) returns it: start Pink, target Green. */
  function Fixture4632(): seq<Cell>
  {
    Layout4632([Pink, Gray, Gray, Gray, Gray, Gray, Gray, Gray, Green])
  }

  /** The seed-4632 layout is a well-formed 3 x 3 board, whatever its colours. */
  lemma LayoutWellFormed(colors: seq<Color>)
    requires |colors| == 9
    ensures WellFormed(3, 3, Layout4632(colors))
  {
    var cells := Layout4632(colors);
    forall c: nat | c < 9
      ensures LinkedAt(3, cells, c) && ReciprocalAt(cells, c)
    {
      assert c == 0 || c == 1 || c == 2 || c == 3 || c == 4 || c == 5 || c == 6 || c == 7 || c == 8;
    }
  }

  /**
   * The sessions of the breadth-first run of testMazeStep: session 0 is the
   * search as the test sets it up, session k the one after k calls of
   * mazeStep.
   */
  function Bfs4632(k: nat): Session
    requires k <= 8
  {
    Session(3, 3, Layout4632(Colors4632(k)), Auto, Queue,
            Frontier4632(k), Visited4632(k), Origins4632(k), 8)
  }

  /**
   * The session after the ninth step: the target was at the front of the
   * worklist, so the game rests with the path back to the start painted.
   */
  function Found4632(): Session
  {
    Session(3, 3, Painted(Layout4632(Colors4632(8)), [8, 7, 4, 1, 0]), Rest, Queue,
            [], Visited4632(8), Origins(), 8)
  }

  /** The colours after k steps. */
  function Colors4632(k: nat): (r: seq<Color>)
    requires k <= 8
    ensures |r| == 9
  {
    match k
    case 0 => [Pink, Gray, Gray, Gray, Gray, Gray, Gray, Gray, Green]
    case 1 => [Pink, Gray, Gray, Gray, Gray, Gray, Gray, Gray, Green]
    case 2 => [Pink, Pink, Gray, Gray, Gray, Gray, Gray, Gray, Green]
    case 3 => [Pink, Pink, Gray, Gray, Pink, Gray, Gray, Gray, Green]
    case 4 => [Pink, Pink, Pink, Gray, Pink, Gray, Gray, Gray, Green]
    case 5 => [Pink, Pink, Pink, Pink, Pink, Gray, Gray, Gray, Green]
    case 6 => [Pink, Pink, Pink, Pink, Pink, Gray, Gray, Pink, Green]
    case 7 => [Pink, Pink, Pink, Pink, Pink, Pink, Gray, Pink, Green]
    case _ => [Pink, Pink, Pink, Pink, Pink, Pink, Pink, Pink, Green]
  }

  /** The worklist after k steps, front first. */
  function Frontier4632(k: nat): seq<nat>
    requires k <= 8
  {
    match k
    case 0 => [0]
    case 1 => [1]
    case 2 => [4, 2]
    case 3 => [2, 3, 7, 5]
    case 4 => [3, 7, 5]
    case 5 => [7, 5]
    case 6 => [5, 6, 8]
    case 7 => [6, 8]
    case _ => [8]
  }

  /** The visited table after k steps: cells 0, 1, 4, 2, 3, 7, 5, 6 in turn. */
  function Visited4632(k: nat): (r: seq<bool>)
    requires k <= 8
    ensures |r| == 9
  {
    match k
    case 0 => [false, false, false, false, false, false, false, false, false]
    case 1 => [true, false, false, false, false, false, false, false, false]
    case 2 => [true, true, false, false, false, false, false, false, false]
    case 3 => [true, true, false, false, true, false, false, false, false]
    case 4 => [true, true, true, false, true, false, false, false, false]
    case 5 => [true, true, true, true, true, false, false, false, false]
    case 6 => [true, true, true, true, true, false, false, true, false]
    case 7 => [true, true, true, true, true, true, false, true, false]
    case _ => [true, true, true, true, true, true, true, true, false]
  }

  /**
   * The cameFrom map of testFindCorrectPath: the origin of every cell once
   * the search has reached it.
   */
  function Origins(): seq<Option<nat>>
  {
    [Some(0), Some(0), Some(1), Some(4), Some(1), Some(4), Some(7), Some(4), Some(7)]
  }

  /** The cameFrom table after k steps. */
  function Origins4632(k: nat): (r: seq<Option<nat>>)
    requires k <= 8
    ensures |r| == 9
  {
    match k
    case 0 => [Some(0), None, None, None, None, None, None, None, None]
    case 1 => [Some(0), Some(0), None, None, None, None, None, None, None]
    case 2 => [Some(0), Some(0), Some(1), None, Some(1), None, None, None, None]
    case 3 => [Some(0), Some(0), Some(1), Some(4), Some(1), Some(4), None, Some(4), None]
    case 4 => [Some(0), Some(0), Some(1), Some(4), Some(1), Some(4), None, Some(4), None]
    case 5 => [Some(0), Some(0), Some(1), Some(4), Some(1), Some(4), None, Some(4), None]
    case _ => Origins()
  }

  /** Ranks for the cameFrom table after k steps: one more than the origin's. */
  function Ranks4632(k: nat): seq<nat>
    requires k <= 8
  {
    match k
    case 0 => [1, 0, 0, 0, 0, 0, 0, 0, 0]
    case 1 => [1, 2, 0, 0, 0, 0, 0, 0, 0]
    case 2 => [1, 2, 3, 0, 3, 0, 0, 0, 0]
    case 3 => [1, 2, 3, 4, 3, 4, 0, 4, 0]
    case 4 => [1, 2, 3, 4, 3, 4, 0, 4, 0]
    case 5 => [1, 2, 3, 4, 3, 4, 0, 4, 0]
    case _ => [1, 2, 3, 4, 3, 4, 5, 4, 5]
  }

  /** Each cell of the layout has its own colour. */
  lemma LayoutColors(colors: seq<Color>)
    requires |colors| == 9
    ensures forall c | 0 <= c < 9 :: Layout4632(colors)[c].color == colors[c]
  {
  }

  /** Recolouring a cell of the layout is changing one entry of its colours. */
  lemma RecolorLayout(colors: seq<Color>, c: nat, color: Color)
    requires |colors| == 9 && c < 9
    ensures Recolor(Layout4632(colors), c, color) == Layout4632(colors[c := color])
  {
    var a := Recolor(Layout4632(colors), c, color);
    assert forall x | 0 <= x < 9 :: a[x] == Layout4632(colors[c := color])[x];
  }

  /** The recorded origins follow the ranks at every step. */
  lemma ChainsAt(k: nat)
    requires k <= 8
    ensures Chains(Origins4632(k), Ranks4632(k), Start)
  {
    if k == 0 {
      assert Chains(Origins4632(0), Ranks4632(0), Start);
    } else if k == 1 {
      assert Chains(Origins4632(1), Ranks4632(1), Start);
    } else if k == 2 {
      assert Chains(Origins4632(2), Ranks4632(2), Start);
    } else if k <= 5 {
      assert Chains(Origins4632(3), Ranks4632(3), Start);
    } else {
      assert Chains(Origins(), Ranks4632(8), Start);
    }
  }

  /** The open neighbours of each cell of the layout, as neighbors() lists them. */
  function NeighborList(c: nat): (ns: seq<Option<nat>>)
    requires c < 9
    ensures forall i | 0 <= i < |ns| :: ns[i].Some? && ns[i].value < 9
  {
    match c
    case 0 => [Some(1)]
    case 1 => [Some(0), Some(4), Some(2)]
    case 2 => [Some(1)]
    case 3 => [Some(4)]
    case 4 => [Some(1), Some(3), Some(7), Some(5)]
    case 5 => [Some(4)]
    case 6 => [Some(7)]
    case 7 => [Some(4), Some(6), Some(8)]
    case _ => [Some(7)]
  }

  /** The cells that step k + 1 adds to the worklist. */
  function Discoveries4632(k: nat): seq<nat>
    requires k < 8
  {
    match k
    case 0 => [1]
    case 1 => [4, 2]
    case 2 => [3, 7, 5]
    case 3 => []
    case 4 => []
    case 5 => [6, 8]
    case 6 => []
    case _ => []
  }

  /** neighbors() of a cell of the layout, whatever the colours. */
  lemma NeighborsAt(colors: seq<Color>, c: nat)
    requires |colors| == 9 && c < 9
    ensures Layout4632(colors)[c].Neighbors() == NeighborList(c)
  {
    var cells := Layout4632(colors);
    if c == 0 {
    } else if c == 1 {
    } else if c == 2 {
    } else if c == 3 {
    } else if c == 4 {
    } else if c == 5 {
    } else if c == 6 {
    } else {
    }
  }

  /** Step 1 visits cell 0, discovers 1. */
  lemma Visit0()
    ensures Frontier4632(0) != [] && Frontier4632(0)[0] == 0 && !Visited4632(0)[0]
    ensures NeighborList(0) == [Some(1)]
    ensures Visited4632(0)[0 := true] == Visited4632(1) && Colors4632(0)[0 := Pink] == Colors4632(1)
    ensures Unvisited(Visited4632(1), [Some(1)]) == Discoveries4632(0)
    ensures Adopted(Visited4632(1), Origins4632(0), 0, [Some(1)]) == Origins4632(1)
    ensures Frontier4632(0)[1..] + Discoveries4632(0) == Frontier4632(1)
  {
    assert [Some(1)][..0] == [];
  }

  /** Step 2 visits cell 1, discovers 4 and 2. */
  lemma Visit1()
    ensures Frontier4632(1) != [] && Frontier4632(1)[0] == 1 && !Visited4632(1)[1]
    ensures NeighborList(1) == [Some(0), Some(4), Some(2)]
    ensures Visited4632(1)[1 := true] == Visited4632(2) && Colors4632(1)[1 := Pink] == Colors4632(2)
    ensures Unvisited(Visited4632(2), [Some(0), Some(4), Some(2)]) == Discoveries4632(1)
    ensures Adopted(Visited4632(2), Origins4632(1), 1, [Some(0), Some(4), Some(2)]) == Origins4632(2)
    ensures Frontier4632(1)[1..] + Discoveries4632(1) == Frontier4632(2)
  {
    assert [Some(0), Some(4), Some(2)][..2] == [Some(0), Some(4)];
    assert [Some(0), Some(4)][..1] == [Some(0)];
    assert [Some(0)][..0] == [];
  }

  /** Step 3 visits cell 4, discovers 3 and 7 and 5. */
  lemma Visit2()
    ensures Frontier4632(2) != [] && Frontier4632(2)[0] == 4 && !Visited4632(2)[4]
    ensures NeighborList(4) == [Some(1), Some(3), Some(7), Some(5)]
    ensures Visited4632(2)[4 := true] == Visited4632(3) && Colors4632(2)[4 := Pink] == Colors4632(3)
    ensures Unvisited(Visited4632(3), [Some(1), Some(3), Some(7), Some(5)]) == Discoveries4632(2)
    ensures Adopted(Visited4632(3), Origins4632(2), 4, [Some(1), Some(3), Some(7), Some(5)]) == Origins4632(3)
    ensures Frontier4632(2)[1..] + Discoveries4632(2) == Frontier4632(3)
  {
    assert [Some(1), Some(3), Some(7), Some(5)][..3] == [Some(1), Some(3), Some(7)];
    assert [Some(1), Some(3), Some(7)][..2] == [Some(1), Some(3)];
    assert [Some(1), Some(3)][..1] == [Some(1)];
    assert [Some(1)][..0] == [];
  }

  /** Step 4 visits cell 2 and discovers nothing. */
  lemma Visit3()
    ensures Frontier4632(3) != [] && Frontier4632(3)[0] == 2 && !Visited4632(3)[2]
    ensures NeighborList(2) == [Some(1)]
    ensures Visited4632(3)[2 := true] == Visited4632(4) && Colors4632(3)[2 := Pink] == Colors4632(4)
    ensures Unvisited(Visited4632(4), [Some(1)]) == Discoveries4632(3)
    ensures Adopted(Visited4632(4), Origins4632(3), 2, [Some(1)]) == Origins4632(4)
    ensures Frontier4632(3)[1..] + Discoveries4632(3) == Frontier4632(4)
  {
    assert [Some(1)][..0] == [];
  }

  /** Step 5 visits cell 3 and discovers nothing. */
  lemma Visit4()
    ensures Frontier4632(4) != [] && Frontier4632(4)[0] == 3 && !Visited4632(4)[3]
    ensures NeighborList(3) == [Some(4)]
    ensures Visited4632(4)[3 := true] == Visited4632(5) && Colors4632(4)[3 := Pink] == Colors4632(5)
    ensures Unvisited(Visited4632(5), [Some(4)]) == Discoveries4632(4)
    ensures Adopted(Visited4632(5), Origins4632(4), 3, [Some(4)]) == Origins4632(5)
    ensures Frontier4632(4)[1..] + Discoveries4632(4) == Frontier4632(5)
  {
    assert [Some(4)][..0] == [];
  }

  /** Step 6 visits cell 7, discovers 6 and 8. */
  lemma Visit5()
    ensures Frontier4632(5) != [] && Frontier4632(5)[0] == 7 && !Visited4632(5)[7]
    ensures NeighborList(7) == [Some(4), Some(6), Some(8)]
    ensures Visited4632(5)[7 := true] == Visited4632(6) && Colors4632(5)[7 := Pink] == Colors4632(6)
    ensures Unvisited(Visited4632(6), [Some(4), Some(6), Some(8)]) == Discoveries4632(5)
    ensures Adopted(Visited4632(6), Origins4632(5), 7, [Some(4), Some(6), Some(8)]) == Origins4632(6)
    ensures Frontier4632(5)[1..] + Discoveries4632(5) == Frontier4632(6)
  {
    assert [Some(4), Some(6), Some(8)][..2] == [Some(4), Some(6)];
    assert [Some(4), Some(6)][..1] == [Some(4)];
    assert [Some(4)][..0] == [];
  }

  /** Step 7 visits cell 5 and discovers nothing. */
  lemma Visit6()
    ensures Frontier4632(6) != [] && Frontier4632(6)[0] == 5 && !Visited4632(6)[5]
    ensures NeighborList(5) == [Some(4)]
    ensures Visited4632(6)[5 := true] == Visited4632(7) && Colors4632(6)[5 := Pink] == Colors4632(7)
    ensures Unvisited(Visited4632(7), [Some(4)]) == Discoveries4632(6)
    ensures Adopted(Visited4632(7), Origins4632(6), 5, [Some(4)]) == Origins4632(7)
    ensures Frontier4632(6)[1..] + Discoveries4632(6) == Frontier4632(7)
  {
    assert [Some(4)][..0] == [];
  }

  /** Step 8 visits cell 6 and discovers nothing. */
  lemma Visit7()
    ensures Frontier4632(7) != [] && Frontier4632(7)[0] == 6 && !Visited4632(7)[6]
    ensures NeighborList(6) == [Some(7)]
    ensures Visited4632(7)[6 := true] == Visited4632(8) && Colors4632(7)[6 := Pink] == Colors4632(8)
    ensures Unvisited(Visited4632(8), [Some(7)]) == Discoveries4632(7)
    ensures Adopted(Visited4632(8), Origins4632(7), 6, [Some(7)]) == Origins4632(8)
    ensures Frontier4632(7)[1..] + Discoveries4632(7) == Frontier4632(8)
  {
    assert [Some(7)][..0] == [];
  }

  /** Step k + 1, for k < 8, as the tables give it: the facts of Visit0 to Visit7. */
  lemma VisitAt(k: nat)
    requires k < 8
    ensures Frontier4632(k) != [] && Frontier4632(k)[0] < 8 && !Visited4632(k)[Frontier4632(k)[0]]
    ensures Visited4632(k)[Frontier4632(k)[0] := true] == Visited4632(k + 1)
    ensures Colors4632(k)[Frontier4632(k)[0] := Pink] == Colors4632(k + 1)
    ensures Unvisited(Visited4632(k + 1), NeighborList(Frontier4632(k)[0])) == Discoveries4632(k)
    ensures Adopted(Visited4632(k + 1), Origins4632(k), Frontier4632(k)[0], NeighborList(Frontier4632(k)[0]))
              == Origins4632(k + 1)
    ensures Frontier4632(k)[1..] + Discoveries4632(k) == Frontier4632(k + 1)
  {
    if k == 0 {
      Visit0();
    } else if k == 1 {
      Visit1();
    } else if k == 2 {
      Visit2();
    } else if k == 3 {
      Visit3();
    } else if k == 4 {
      Visit4();
    } else if k == 5 {
      Visit5();
    } else if k == 6 {
      Visit6();
    } else {
      Visit7();
    }
  }

  /** Steps 1 to 8 visit a cell other than the target and move to the next session of the table. */
  lemma ExploreAt(k: nat)
    requires k < 8
    ensures WellFormed(3, 3, Bfs4632(k).cells) && Explored(Bfs4632(k)) == Bfs4632(k + 1)
  {
    VisitAt(k);
    var s := Bfs4632(k);
    var c := s.frontier[0];
    NeighborsAt(Colors4632(k), c);
    LayoutWellFormed(Colors4632(k));
    RecolorLayout(Colors4632(k), c, Pink);
    QueueOrder(s.frontier[1..], Discoveries4632(k));
  }

  /** The search invariant depends on the ranks only through Chains. */
  lemma Reranked(s: Session, rank: seq<nat>, rank': seq<nat>)
    requires Ready(s, rank) && Chains(s.cameFrom, rank', Start)
    ensures Ready(s, rank')
  {
  }

  /** The Maze at rest over the seed-4632 board, as its constructor leaves it. */
  function Rest4632(): Session
  {
    Session(3, 3, Fixture4632(), Rest, Queue, [], [], [], 0)
  }

  /** Pressing "b" on the game at rest sets up session 0, as testMazeStep does by hand. */
  lemma Begin4632()
    ensures WellFormed(3, 3, Fixture4632())
    ensures Bfs4632(0) == KeyEvent(Rest4632(), "b", [], [])
  {
    LayoutWellFormed(Colors4632(0));
    var r := KeyEvent(Rest4632(), "b", [], []);
    assert r.cells == Restarted(Fixture4632());
    assert forall x | 0 <= x < 9 :: r.cells[x] == Fixture4632()[x];
    assert r.visited == Visited4632(0);
    assert r.cameFrom == Origins4632(0);
  }

  /** Every session of the run up to the last step is ready for mazeStep. */
  lemma {:induction false} ReadyAt(k: nat)
    requires k <= 8
    ensures Ready(Bfs4632(k), Ranks4632(k))
  {
    ChainsAt(k);
    if k == 0 {
      Begin4632();
      var rank := ResetPlayable(Rest4632().(state := Auto), Queue);
      Reranked(Bfs4632(0), rank, Ranks4632(0));
    } else {
      ReadyAt(k - 1);
      StepAt(k - 1);
      var rank := StepReady(Bfs4632(k - 1), Ranks4632(k - 1));
      Reranked(Bfs4632(k), rank, Ranks4632(k));
    }
  }

  /** Steps 1 to 8 take the session of the table to the next one. */
  lemma StepAt(k: nat)
    requires k < 8 && Ready(Bfs4632(k), Ranks4632(k))
    ensures Bfs4632(k).frontier != [] && Step(Bfs4632(k), Ranks4632(k)) == Bfs4632(k + 1)
  {
    VisitAt(k);
    StepExplores(Bfs4632(k), Ranks4632(k));
    ExploreAt(k);
  }

  /** testFindCorrectPath: whatever ranks order the origins, the path back from cell 8 is 8, 7, 4, 1, 0. */
  lemma PathOf4632(rank: seq<nat>)
    requires Chains(Origins(), rank, Start)
    ensures CorrectPath(Origins(), rank, Start, 8) == [8, 7, 4, 1, 0]
  {
    assert CorrectPath(Origins(), rank, Start, 0) == [0];
    assert CorrectPath(Origins(), rank, Start, 1) == [1, 0];
    assert CorrectPath(Origins(), rank, Start, 4) == [4, 1, 0];
    assert CorrectPath(Origins(), rank, Start, 7) == [7, 4, 1, 0];
  }

  /** Step 9 takes the target off the worklist, paints the path Green and rests. */
  lemma FinishAt()
    requires Ready(Bfs4632(8), Ranks4632(8))
    ensures Step(Bfs4632(8), Ranks4632(8)) == Found4632()
  {
    var s := Bfs4632(8);
    assert s.frontier == [8] && s.cameFrom == Origins();
    StepPaints(s, Ranks4632(8));
    PathOf4632(Ranks4632(8));
  }

  /**
   * testMazeStep: from the game at rest on the seed-4632 board, "b" and
   * nine calls of mazeStep search breadth first through the sessions
   * Bfs4632(0), ..., Bfs4632(8) and end in Found4632().
   */
  lemma BreadthFirst4632()
    ensures WellFormed(3, 3, Fixture4632()) && Bfs4632(0) == KeyEvent(Rest4632(), "b", [], [])
    ensures forall k | 0 <= k < 8 :: Advances(Bfs4632(k), Ranks4632(k), Bfs4632(k + 1))
    ensures Advances(Bfs4632(8), Ranks4632(8), Found4632())
  {
    Begin4632();
    forall k | 0 <= k < 8
      ensures Advances(Bfs4632(k), Ranks4632(k), Bfs4632(k + 1))
    {
      ReadyAt(k);
      StepAt(k);
    }
    ReadyAt(8);
    FinishAt();
  }

  /** One call of mazeStep, with the search invariant holding, turns s into next. */
  ghost predicate Advances(s: Session, rank: seq<nat>, next: Session)
  {
    Ready(s, rank) && s.frontier != [] && Step(s, rank) == next
  }

  /** testMazeStep's checks after the first two steps: worklist, visited cells, origins and colours. */
  lemma FirstSteps4632()
    ensures var s := Bfs4632(1);
            s.frontier == [1] && s.visited[0] && !s.visited[1] && s.cells[0].color == Pink
            && s.cameFrom[1] == Some(0) && s.cells[1].color == Gray
    ensures var s := Bfs4632(2);
            s.frontier == [4, 2] && s.visited[1] && s.cells[1].color == Pink
            && s.cameFrom[4] == Some(1) && s.cameFrom[2] == Some(1)
  {
  }

  /** After the ninth step the game rests with the path 8, 7, 4, 1, 0 Green and every other cell Pink. */
  lemma Final4632()
    ensures Found4632().state == Rest && Found4632().frontier == []
    ensures forall c | 0 <= c < 9 ::
              Found4632().cells[c].color == if c in [8, 7, 4, 1, 0] then Green else Pink
  {
    LayoutColors(Colors4632(8));
  }
}
