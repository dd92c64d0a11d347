// The solver of the game as a state machine over values: one Session value
// holds what the Maze object holds (board, state, worklist, visited,
// cameFrom, target), and each function below gives the session after one
// of the Maze methods (mazeStep, arrowPress, resetSolution, onKeyEvent,
// onTick).  The class in the Game module is proved to follow these
// functions; the lemmas here state what they guarantee.

module Search {
  import opened Seqs
  import opened Grid
  import opened Frontiers
  import opened Paths
  import opened Boards

  /** Auto: a search runs on every tick; Manual: arrow keys move; Rest: nothing happens. */
  datatype State = Auto | Manual | Rest

  /** board.get(0), where every search starts. */
  const Start: nat := 0

  /**
   * The fields of a Maze: the board's size and cells, its state, the
   * worklist (its kind and contents, front first), the visited flag and
   * the recorded origin of every cell, and the target cell.
   */
  datatype Session = Session(
    length: nat, height: nat, cells: seq<Cell>, state: State,
    kind: Kind, frontier: seq<nat>, visited: seq<bool>,
    cameFrom: seq<Option<nat>>, target: nat)

  /** Cell x is marked visited. */
  predicate Seen(visited: seq<bool>, x: nat)
  {
    x < |visited| && visited[x]
  }

  /**
   * For an automatic search: no open wall leads from a visited cell to a
   * cell that is neither visited nor waiting on the worklist.
   */
  ghost predicate Closed(s: Session)
  {
    forall x: nat, y: nat | Seen(s.visited, x) && Opens(s.cells, x, y) ::
      Seen(s.visited, y) || y in s.frontier
  }

  /**
   * What holds while a search is under way: the tables cover the board,
   * the target is the last cell and has not been visited, the origins lead
   * back to the start through open walls, every waiting cell has an origin,
   * and an automatic search has the start visited or waiting and is closed.
   */
  ghost predicate Searching(s: Session, rank: seq<nat>)
  {
    var n := |s.cells|;
    n >= 1 && |s.visited| == n && |s.cameFrom| == n && s.target == n - 1
    && Chains(s.cameFrom, rank, Start) && Tree(s.cells, s.cameFrom, Start)
    && (forall k | 0 <= k < |s.frontier| :: s.frontier[k] < n && s.cameFrom[s.frontier[k]].Some?)
    && !s.visited[s.target]
    && (s.state == Auto ==> (Seen(s.visited, Start) || Start in s.frontier) && Closed(s))
  }

  /** A well-formed board, and the search invariant unless at rest. */
  ghost predicate Ready(s: Session, rank: seq<nat>)
  {
    WellFormed(s.length, s.height, s.cells) && (s.state != Rest ==> Searching(s, rank))
  }

  /** Ready, and in Manual the worklist holds exactly the current cell. */
  ghost predicate Playable(s: Session, rank: seq<nat>)
  {
    Ready(s, rank) && (s.state == Manual ==> |s.frontier| == 1)
  }

  // ---------------------------------------------------------------------
  // mazeStep

  /** The entries of neighbors() that are not visited, in the order listed there. */
  function Unvisited(visited: seq<bool>, ns: seq<Option<nat>>): (us: seq<nat>)
    requires forall k | 0 <= k < |ns| :: ns[k].Some? && ns[k].value < |visited|
    ensures |us| <= |ns|
  {
    if ns == [] then []
    else
      var init := ns[..|ns| - 1];
      var n := ns[|ns| - 1].value;
      assert ns == init + [ns[|ns| - 1]];
      var us := Unvisited(visited, init);
      if visited[n] then us else us + [n]
  }

  /**
   * cameFrom after mazeStep's loop over the neighbours ns of c: each
   * unvisited neighbour without an origin gets c, every other entry stays.
   */
  function Adopted(visited: seq<bool>, cameFrom: seq<Option<nat>>, c: nat, ns: seq<Option<nat>>)
    : (r: seq<Option<nat>>)
    requires |cameFrom| == |visited|
    requires forall k | 0 <= k < |ns| :: ns[k].Some? && ns[k].value < |visited|
    ensures |r| == |cameFrom|
  {
    if ns == [] then cameFrom
    else
      var init := ns[..|ns| - 1];
      var n := ns[|ns| - 1].value;
      assert ns == init + [ns[|ns| - 1]];
      var before := Adopted(visited, cameFrom, c, init);
      if !visited[n] then PutIfAbsent(before, n, c) else before
  }

  /** Unvisited keeps exactly the listed cells that are not visited. */
  lemma {:induction false} UnvisitedIn(visited: seq<bool>, ns: seq<Option<nat>>)
    requires forall k | 0 <= k < |ns| :: ns[k].Some? && ns[k].value < |visited|
    ensures forall y | y in Unvisited(visited, ns) :: y < |visited| && !visited[y] && Some(y) in ns
    ensures forall k | 0 <= k < |ns| && !visited[ns[k].value] :: ns[k].value in Unvisited(visited, ns)
  {
    if ns != [] {
      var init := ns[..|ns| - 1];
      assert ns == init + [ns[|ns| - 1]];
      UnvisitedIn(visited, init);
      forall k | 0 <= k < |ns| && !visited[ns[k].value]
        ensures ns[k].value in Unvisited(visited, ns)
      {
        if k < |ns| - 1 {
          assert ns[k] == init[k];
        }
      }
    }
  }

  /** Adopted gives c exactly to the listed cells that are unvisited and have no origin yet. */
  lemma {:induction false} AdoptedEntries(visited: seq<bool>, cameFrom: seq<Option<nat>>, c: nat,
                                          ns: seq<Option<nat>>)
    requires |cameFrom| == |visited|
    requires forall k | 0 <= k < |ns| :: ns[k].Some? && ns[k].value < |visited|
    ensures forall x | 0 <= x < |cameFrom| ::
              Adopted(visited, cameFrom, c, ns)[x] ==
                if cameFrom[x].None? && !visited[x] && Some(x) in ns then Some(c) else cameFrom[x]
  {
    if ns != [] {
      var init := ns[..|ns| - 1];
      assert ns == init + [ns[|ns| - 1]];
      AdoptedEntries(visited, cameFrom, c, init);
    }
  }

  /** One more neighbour looked at: it is kept when unvisited. */
  lemma UnvisitedSnoc(visited: seq<bool>, ns: seq<Option<nat>>, k: nat)
    requires forall i | 0 <= i < |ns| :: ns[i].Some? && ns[i].value < |visited|
    requires k < |ns|
    ensures Unvisited(visited, ns[..k + 1]) ==
              if visited[ns[k].value] then Unvisited(visited, ns[..k])
              else Unvisited(visited, ns[..k]) + [ns[k].value]
  {
    assert ns[..k + 1][..k] == ns[..k];
  }

  /** One more neighbour looked at: it gets c as origin when unvisited and without one. */
  lemma AdoptedSnoc(visited: seq<bool>, cameFrom: seq<Option<nat>>, c: nat, ns: seq<Option<nat>>, k: nat)
    requires |cameFrom| == |visited|
    requires forall i | 0 <= i < |ns| :: ns[i].Some? && ns[i].value < |visited|
    requires k < |ns|
    ensures Adopted(visited, cameFrom, c, ns[..k + 1]) ==
              if visited[ns[k].value] then Adopted(visited, cameFrom, c, ns[..k])
              else PutIfAbsent(Adopted(visited, cameFrom, c, ns[..k]), ns[k].value, c)
  {
    assert ns[..k + 1][..k] == ns[..k];
  }

  /**
   * mazeStep: outside Rest, remove the front cell c; skip it if visited;
   * if it is the target, paint the path back to the start and rest;
   * otherwise mark it visited, paint it Pink, record c as origin of its
   * unvisited neighbours and, in Auto, add them to the worklist.
   */
  function Step(s: Session, ghost rank: seq<nat>): (r: Session)
    requires Ready(s, rank) && (s.state != Rest ==> s.frontier != [])
  {
    if s.state == Rest then s
    else
      var c := s.frontier[0];
      var rest := s.frontier[1..];
      if s.visited[c] then s.(frontier := rest)
      else if c == s.target then
        s.(frontier := rest, state := Rest,
           cells := Painted(s.cells, CorrectPath(s.cameFrom, rank, Start, s.target)))
      else Explored(s)
  }

  /**
   * The neighbours of the front cell c that mazeStep hands to the
   * worklist: the unvisited ones (c itself now counting as visited), in
   * the order neighbors() lists them.
   */
  function Discovered(s: Session): seq<nat>
    requires WellFormed(s.length, s.height, s.cells) && s.frontier != []
    requires s.frontier[0] < |s.cells| && |s.visited| == |s.cells|
  {
    NeighborsOnBoard(s.length, s.height, s.cells, s.frontier[0]);
    Unvisited(s.visited[s.frontier[0] := true], s.cells[s.frontier[0]].Neighbors())
  }

  /** A step onto an unvisited cell other than the target explores it. */
  lemma StepExplores(s: Session, rank: seq<nat>)
    requires Ready(s, rank) && s.state != Rest && s.frontier != []
    requires s.frontier[0] < |s.visited| && !s.visited[s.frontier[0]] && s.frontier[0] != s.target
    ensures Step(s, rank) == Explored(s)
  {
  }

  /** A step onto the unvisited target paints the path back to the start and rests. */
  lemma StepPaints(s: Session, rank: seq<nat>)
    requires Ready(s, rank) && s.state != Rest && s.frontier != []
    requires s.frontier[0] < |s.visited| && !s.visited[s.frontier[0]] && s.frontier[0] == s.target
    ensures Chains(s.cameFrom, rank, Start) && s.target < |s.cameFrom| && s.cameFrom[s.target].Some?
    ensures Step(s, rank) ==
            s.(frontier := s.frontier[1..], state := Rest,
               cells := Painted(s.cells, CorrectPath(s.cameFrom, rank, Start, s.target)))
  {
  }

  /** The session after visiting the front cell c, as mazeStep leaves it. */
  function Explored(s: Session): (r: Session)
    requires WellFormed(s.length, s.height, s.cells) && s.frontier != []
    requires s.frontier[0] < |s.cells| && |s.visited| == |s.cameFrom| == |s.cells|
  {
    var c := s.frontier[0];
    NeighborsOnBoard(s.length, s.height, s.cells, c);
    var visited := s.visited[c := true];
    var ns := s.cells[c].Neighbors();
    s.(frontier := if s.state == Auto then AddAll(s.kind, s.frontier[1..], Discovered(s)) else s.frontier[1..],
       visited := visited, cells := Recolor(s.cells, c, Pink),
       cameFrom := Adopted(visited, s.cameFrom, c, ns))
  }

  // ---------------------------------------------------------------------
  // resetSolution

  /** The cells as resetSolution paints them: start Pink, last cell Green, the others Gray. */
  function Restarted(cells: seq<Cell>): (r: seq<Cell>)
    ensures SameShape(cells, r)
    ensures forall c | 0 <= c < |r| :: r[c].color == StartColor(|cells|, c)
  {
    seq(|cells|, c requires 0 <= c < |cells| => cells[c].(color := StartColor(|cells|, c)))
  }

  /** A fresh visited table for n cells: nothing visited. */
  function Unseen(n: nat): (r: seq<bool>)
    ensures |r| == n && forall x | 0 <= x < n :: !r[x]
  {
    if n == 0 then [] else Unseen(n - 1) + [false]
  }

  /** A fresh cameFrom table for n cells: no cell has an origin. */
  function NoOrigins(n: nat): (r: seq<Option<nat>>)
    ensures |r| == n && forall x | 0 <= x < n :: r[x].None?
  {
    if n == 0 then [] else NoOrigins(n - 1) + [None]
  }

  /** The board while resetSolution's loop runs: the first k cells painted Gray. */
  ghost function Grayed(cells: seq<Cell>, k: nat): seq<Cell>
  {
    seq(|cells|, x requires 0 <= x < |cells| => if x < k then cells[x].(color := Gray) else cells[x])
  }

  /** Painting cell k Gray paints one more cell of the loop. */
  lemma GrayedStep(cells: seq<Cell>, k: nat)
    requires k < |cells|
    ensures Recolor(Grayed(cells, k), k, Gray) == Grayed(cells, k + 1)
  {
    assert forall x | 0 <= x < |cells| :: Recolor(Grayed(cells, k), k, Gray)[x] == Grayed(cells, k + 1)[x];
  }

  /** With every cell Gray, painting the start Pink and then the last cell Green restarts the board. */
  lemma Repainted(cells: seq<Cell>)
    requires |cells| >= 1
    ensures Recolor(Recolor(Grayed(cells, |cells|), Start, Pink), |cells| - 1, Green) == Restarted(cells)
  {
    var r := Recolor(Recolor(Grayed(cells, |cells|), Start, Pink), |cells| - 1, Green);
    assert forall x | 0 <= x < |cells| :: r[x] == Restarted(cells)[x];
  }

  /**
   * resetSolution(w) for a w of the given kind holding `held`: the start
   * is added to w, nothing is visited, only the start has an origin (itself)
   * and the target is the last cell.
   */
  function Reset(s: Session, kind: Kind, held: seq<nat>): (r: Session)
    requires |s.cells| >= 1
  {
    var n := |s.cells|;
    s.(kind := kind, frontier := Added(kind, held, Start), visited := Unseen(n),
       cameFrom := NoOrigins(n)[Start := Some(Start)], target := n - 1,
       cells := Restarted(s.cells))
  }

  // ---------------------------------------------------------------------
  // arrowPress

  /**
   * The session in the middle of a legal press from the current cell to c:
   * the old cell LightPink, c Pink, c's origin the old cell unless it has
   * one, and c added twice to what is left of the worklist.
   */
  function Moved(s: Session, c: nat): Session
    requires s.frontier != [] && s.frontier[0] < |s.cells| && c < |s.cells| && c < |s.cameFrom|
  {
    var prev := s.frontier[0];
    s.(cells := Recolor(Recolor(s.cells, prev, LightPink), c, Pink),
       cameFrom := PutIfAbsent(s.cameFrom, c, prev),
       frontier := Added(s.kind, Added(s.kind, s.frontier[1..], c), c))
  }

  /** The ranks once c has been given the current cell as origin (if it had none). */
  ghost function MovedRank(s: Session, rank: seq<nat>, c: nat): seq<nat>
    requires s.frontier != [] && s.frontier[0] < |rank| && c < |rank| && c < |s.cameFrom|
  {
    if s.cameFrom[c].None? then rank[c := rank[s.frontier[0]] + 1] else rank
  }

  /**
   * arrowPress: in Manual, move from the current cell through the open
   * wall the key names, if there is one, and take a search step there;
   * outside Manual, switch to Manual and reset with a Queue.
   */
  function Press(s: Session, key: string, ghost rank: seq<nat>): (r: Session)
    requires Playable(s, rank)
  {
    if s.state == Manual then
      var prev := s.frontier[0];
      var next := s.cells[prev].FindNext(key);
      if next.Some? then
        MovedReady(s, rank, key);
        Step(Moved(s, next.value), MovedRank(s, rank, next.value))
      else
        s.(frontier := Added(s.kind, s.frontier[1..], prev))
    else
      Reset(s.(state := Manual), Queue, [])
  }

  // ---------------------------------------------------------------------
  // onKeyEvent and onTick

  /** The four keys arrowPress handles. */
  predicate IsArrow(key: string)
  {
    key == "left" || key == "right" || key == "up" || key == "down"
  }

  /**
   * onKeyEvent: "d" starts a depth-first search (Stack), "b" a
   * breadth-first one (Queue), "r" replaces the board by `regenerated` and
   * rests, an arrow key goes to arrowPress, and any other key does nothing.
   */
  function KeyEvent(s: Session, key: string, ghost rank: seq<nat>, regenerated: seq<Cell>): (r: Session)
    requires Playable(s, rank)
  {
    if key == "d" then Reset(s.(state := Auto), Stack, [])
    else if key == "b" then Reset(s.(state := Auto), Queue, [])
    else if key == "r" then s.(cells := regenerated, state := Rest)
    else if IsArrow(key) then Press(s, key, rank)
    else s
  }

  /** onTick: one search step in Auto, nothing otherwise. */
  function Tick(s: Session, ghost rank: seq<nat>): (r: Session)
    requires Playable(s, rank) && (s.state == Auto ==> s.frontier != [])
  {
    if s.state == Auto then Step(s, rank) else s
  }

  // ---------------------------------------------------------------------
  // What the steps keep

  /** A legal press leads to a cell of the board and the middle session is ready for mazeStep. */
  lemma MovedReady(s: Session, rank: seq<nat>, key: string)
    requires Playable(s, rank) && s.state == Manual
    requires s.frontier[0] < |s.cells| && s.cells[s.frontier[0]].FindNext(key).Some?
    ensures s.cells[s.frontier[0]].FindNext(key).value < |s.cells|
    ensures Ready(Moved(s, s.cells[s.frontier[0]].FindNext(key).value),
                  MovedRank(s, rank, s.cells[s.frontier[0]].FindNext(key).value))
    ensures Moved(s, s.cells[s.frontier[0]].FindNext(key).value).frontier
              == [s.cells[s.frontier[0]].FindNext(key).value, s.cells[s.frontier[0]].FindNext(key).value]
  {
    var prev := s.frontier[0];
    var c := s.cells[prev].FindNext(key).value;
    assert Opens(s.cells, prev, c);
    MovedSession(s, rank, prev, c);
  }

  /** Moving in a Manual session from its one waiting cell prev through an open wall to c. */
  lemma MovedSession(s: Session, rank: seq<nat>, prev: nat, c: nat)
    requires s.state == Manual && WellFormed(s.length, s.height, s.cells)
    requires |s.visited| == |s.cells| && |s.cameFrom| == |s.cells| && s.target == |s.cells| - 1
    requires Chains(s.cameFrom, rank, Start) && Tree(s.cells, s.cameFrom, Start) && !s.visited[s.target]
    requires s.frontier == [prev] && prev < |s.cells| && s.cameFrom[prev].Some? && Opens(s.cells, prev, c)
    ensures c < |s.cells|
    ensures Ready(Moved(s, c), MovedRank(s, rank, c)) && Moved(s, c).frontier == [c, c]
  {
    MovedParts(s.length, s.height, s.cells, s.cameFrom, rank, prev, c);
    AddedTwice(s.kind, s.frontier, c);
    var m := Moved(s, c);
    assert m.frontier == [c, c] && m.cameFrom[c].Some?;
    ManualReady(m, MovedRank(s, rank, c));
  }

  /**
   * Moving from prev through an open wall to c and painting both keeps the
   * board well formed and the origins leading back to the start.
   */
  lemma MovedParts(length: nat, height: nat, cells: seq<Cell>, cameFrom: seq<Option<nat>>,
                   rank: seq<nat>, prev: nat, c: nat)
    requires WellFormed(length, height, cells) && |cameFrom| == |cells|
    requires Chains(cameFrom, rank, Start) && Tree(cells, cameFrom, Start)
    requires prev < |cells| && cameFrom[prev].Some? && Opens(cells, prev, c)
    ensures c < |cells| && c != prev
    ensures WellFormed(length, height, Recolor(Recolor(cells, prev, LightPink), c, Pink))
    ensures Chains(PutIfAbsent(cameFrom, c, prev), if cameFrom[c].None? then rank[c := rank[prev] + 1] else rank, Start)
    ensures Tree(Recolor(Recolor(cells, prev, LightPink), c, Pink), PutIfAbsent(cameFrom, c, prev), Start)
  {
    OpensNotSelf(length, height, cells, prev, c);
    var cells' := Recolor(Recolor(cells, prev, LightPink), c, Pink);
    assert SameShape(cells, cells') by {
      assert SameShape(cells, Recolor(cells, prev, LightPink));
    }
    ShapeKeepsWellFormed(length, height, cells, cells');
    PutChains(cameFrom, rank, prev, c);
    PutTree(length, height, cells, cells', cameFrom, prev, c);
  }

  /** The search invariant of a Manual session, from its parts. */
  lemma ManualReady(s: Session, rank: seq<nat>)
    requires s.state == Manual && WellFormed(s.length, s.height, s.cells)
    requires |s.cells| >= 1 && |s.visited| == |s.cells| && |s.cameFrom| == |s.cells| && s.target == |s.cells| - 1
    requires Chains(s.cameFrom, rank, Start) && Tree(s.cells, s.cameFrom, Start)
    requires forall k | 0 <= k < |s.frontier| :: s.frontier[k] < |s.cells| && s.cameFrom[s.frontier[k]].Some?
    requires !s.visited[s.target]
    ensures Ready(s, rank)
  {
  }

  /** Giving c the origin prev, which has one itself, keeps the origins leading back to the start. */
  lemma PutChains(cameFrom: seq<Option<nat>>, rank: seq<nat>, prev: nat, c: nat)
    requires Chains(cameFrom, rank, Start) && prev < |cameFrom| && c < |cameFrom| && cameFrom[prev].Some?
    ensures Chains(PutIfAbsent(cameFrom, c, prev),
                   if cameFrom[c].None? then rank[c := rank[prev] + 1] else rank, Start)
  {
    var n := |cameFrom|;
    var cf1 := PutIfAbsent(cameFrom, c, prev);
    var rank1 := if cameFrom[c].None? then rank[c := rank[prev] + 1] else rank;
    forall x | 0 <= x < n
      ensures (cf1[x].Some? <==> rank1[x] > 0)
      ensures cf1[x].Some? ==>
                cf1[x].value < n && rank1[cf1[x].value] > 0 && (x != Start ==> rank1[cf1[x].value] < rank1[x])
    {
      if cameFrom[x].Some? {
        var p := cameFrom[x].value;
        assert cameFrom[p].Some?;
      } else if x == c {
        assert cf1[c] == Some(prev) && cf1[prev] == cameFrom[prev];
      }
    }
  }

  /** Giving c an origin open towards it keeps every origin open towards its cell, on any recolouring. */
  lemma PutTree(length: nat, height: nat, cells: seq<Cell>, cells': seq<Cell>,
                cameFrom: seq<Option<nat>>, prev: nat, c: nat)
    requires WellFormed(length, height, cells) && SameShape(cells, cells')
    requires |cameFrom| == |cells| && c < |cells| && Tree(cells, cameFrom, Start) && Opens(cells, prev, c)
    ensures Tree(cells', PutIfAbsent(cameFrom, c, prev), Start)
  {
    ShapeKeepsWellFormed(length, height, cells, cells');
    var cf1 := PutIfAbsent(cameFrom, c, prev);
    forall x | 0 <= x < |cells| && x != Start && cf1[x].Some?
      ensures Opens(cells', cf1[x].value, x)
    {
      if cameFrom[x].Some? {
        assert Opens(cells, cameFrom[x].value, x);
      }
    }
  }

  /** Removing a visited cell keeps the search invariant. */
  lemma SkipReady(s: Session, rank: seq<nat>)
    requires Ready(s, rank) && s.state != Rest && s.frontier != [] && s.frontier[0] < |s.visited|
    requires s.visited[s.frontier[0]]
    ensures Ready(s.(frontier := s.frontier[1..]), rank)
  {
    var r := s.(frontier := s.frontier[1..]);
    assert forall y | y in r.frontier :: y in s.frontier;
  }

  /** The ranks after c became the origin of the cells that had none before. */
  ghost function AdoptRank(cameFrom: seq<Option<nat>>, cameFrom': seq<Option<nat>>, rank: seq<nat>, c: nat)
    : seq<nat>
    requires |cameFrom'| == |cameFrom| == |rank| && c < |rank|
  {
    seq(|rank|, x requires 0 <= x < |rank| =>
      if cameFrom[x].None? && cameFrom'[x].Some? then rank[c] + 1 else rank[x])
  }

  /**
   * Recording c, which has an origin, as the origin of unvisited
   * neighbours of c keeps the origins leading back to the start.
   */
  lemma AdoptChains(cameFrom: seq<Option<nat>>, rank: seq<nat>, visited: seq<bool>, c: nat,
                    ns: seq<Option<nat>>)
    requires |cameFrom| == |visited| && c < |cameFrom| && cameFrom[c].Some?
    requires Chains(cameFrom, rank, Start)
    requires forall k | 0 <= k < |ns| :: ns[k].Some? && ns[k].value < |visited|
    ensures Chains(Adopted(visited, cameFrom, c, ns),
                   AdoptRank(cameFrom, Adopted(visited, cameFrom, c, ns), rank, c), Start)
  {
    var n := |cameFrom|;
    var cf, cf' := cameFrom, Adopted(visited, cameFrom, c, ns);
    AdoptedEntries(visited, cameFrom, c, ns);
    var rank' := AdoptRank(cf, cf', rank, c);
    forall x | 0 <= x < n
      ensures (cf'[x].Some? <==> rank'[x] > 0)
      ensures cf'[x].Some? ==>
                cf'[x].value < n && rank'[cf'[x].value] > 0 && (x != Start ==> rank'[cf'[x].value] < rank'[x])
    {
      if cf[x].Some? {
        var p := cf[x].value;
        assert cf[p].Some?;
        assert cf'[p] == cf[p];
      } else if cf'[x].Some? {
        assert cf'[x] == Some(c) && cf'[c] == cf[c];
      }
    }
  }

  /**
   * Recording c as the origin of unvisited open neighbours of c keeps
   * every origin open towards the cell it leads to, on any recolouring.
   */
  lemma AdoptTree(length: nat, height: nat, cells: seq<Cell>, cells': seq<Cell>,
                  cameFrom: seq<Option<nat>>, visited: seq<bool>, c: nat)
    requires WellFormed(length, height, cells) && SameShape(cells, cells')
    requires |cameFrom| == |cells| == |visited| && c < |cells|
    requires Tree(cells, cameFrom, Start)
    requires forall k | 0 <= k < |cells[c].Neighbors()| ::
               cells[c].Neighbors()[k].Some? && cells[c].Neighbors()[k].value < |visited|
    ensures Tree(cells', Adopted(visited, cameFrom, c, cells[c].Neighbors()), Start)
  {
    var n := |cells|;
    var ns := cells[c].Neighbors();
    var cf, cf' := cameFrom, Adopted(visited, cameFrom, c, ns);
    AdoptedEntries(visited, cameFrom, c, ns);
    ShapeKeepsWellFormed(length, height, cells, cells');
    forall x | 0 <= x < n && x != Start && cf'[x].Some?
      ensures Opens(cells', cf'[x].value, x)
    {
      if cf[x].Some? {
        assert Opens(cells, cf[x].value, x);
      } else {
        assert Some(x) in ns;
        assert cells[c].OpensTo(x);
      }
    }
  }

  /**
   * Visiting c keeps an automatic search closed: c's unvisited open
   * neighbours join the worklist, and every other waiting cell stays.
   */
  lemma ExploreClosed(s: Session, r: Session)
    requires WellFormed(s.length, s.height, s.cells) && |s.visited| == |s.cells|
    requires s.frontier != [] && s.frontier[0] < |s.cells| && Closed(s)
    requires Seen(s.visited, Start) || Start in s.frontier
    requires (forall k | 0 <= k < |s.cells[s.frontier[0]].Neighbors()| ::
               s.cells[s.frontier[0]].Neighbors()[k].Some?
               && s.cells[s.frontier[0]].Neighbors()[k].value < |s.visited|)
    requires r.cells == Recolor(s.cells, s.frontier[0], Pink)
    requires r.visited == s.visited[s.frontier[0] := true]
    requires r.frontier == AddAll(s.kind, s.frontier[1..],
                                  Unvisited(r.visited, s.cells[s.frontier[0]].Neighbors()))
    ensures Closed(r)
    ensures Seen(r.visited, Start) || Start in r.frontier
  {
    var c := s.frontier[0];
    var rest := s.frontier[1..];
    var ns := s.cells[c].Neighbors();
    var us := Unvisited(r.visited, ns);
    UnvisitedIn(r.visited, ns);
    ShapeKeepsWellFormed(s.length, s.height, s.cells, r.cells);
    AddAllIn(s.kind, rest, us, r.frontier);
    if Start != c && !Seen(s.visited, Start) {
      assert Start in s.frontier;
      assert Start in rest;
    }
    forall x: nat, y: nat | Seen(r.visited, x) && Opens(r.cells, x, y)
      ensures Seen(r.visited, y) || y in r.frontier
    {
      assert Opens(s.cells, x, y);
      OpensNotSelf(s.length, s.height, s.cells, x, y);
      if x == c {
        assert Some(y) in ns;
        var k :| 0 <= k < |ns| && ns[k] == Some(y);
        if !r.visited[y] {
          assert y in us;
        }
      } else if !Seen(r.visited, y) {
        assert Seen(s.visited, x);
        assert y in s.frontier && y != c;
        assert y in rest;
      }
    }
  }

  /** After visiting c every waiting cell has an origin. */
  lemma ExploreFrontier(frontier: seq<nat>, cameFrom: seq<Option<nat>>, visited: seq<bool>, c: nat,
                        ns: seq<Option<nat>>, kind: Kind, auto: bool)
    requires |cameFrom| == |visited| && frontier != []
    requires forall y | y in frontier :: y < |cameFrom| && cameFrom[y].Some?
    requires forall k | 0 <= k < |ns| :: ns[k].Some? && ns[k].value < |visited|
    ensures forall y | y in (if auto then AddAll(kind, frontier[1..], Unvisited(visited, ns)) else frontier[1..]) ::
              y < |cameFrom| && Adopted(visited, cameFrom, c, ns)[y].Some?
  {
    var rest := frontier[1..];
    var us := Unvisited(visited, ns);
    UnvisitedIn(visited, ns);
    var cf' := Adopted(visited, cameFrom, c, ns);
    AdoptedEntries(visited, cameFrom, c, ns);
    assert forall y | y in rest :: y in frontier;
    if auto {
      AddAllIn(kind, rest, us, AddAll(kind, rest, us));
    }
  }

  /** Visiting the front cell c (neither visited nor the target) keeps the search invariant. */
  lemma ExploreReady(s: Session, rank: seq<nat>) returns (rank': seq<nat>)
    requires Ready(s, rank) && s.state != Rest && s.frontier != []
    requires s.frontier[0] < |s.visited| && !s.visited[s.frontier[0]] && s.frontier[0] != s.target
    ensures Ready(Explored(s), rank')
  {
    var n := |s.cells|;
    var c := s.frontier[0];
    var rest := s.frontier[1..];
    assert c in s.frontier;
    NeighborsOnBoard(s.length, s.height, s.cells, c);
    var visited := s.visited[c := true];
    var ns := s.cells[c].Neighbors();
    var us := Unvisited(visited, ns);
    UnvisitedIn(visited, ns);
    var r := Explored(s);
    ExploreFrontier(s.frontier, s.cameFrom, visited, c, ns, s.kind, s.state == Auto);
    ShapeKeepsWellFormed(s.length, s.height, s.cells, r.cells);
    AdoptChains(s.cameFrom, rank, visited, c, ns);
    AdoptTree(s.length, s.height, s.cells, r.cells, s.cameFrom, visited, c);
    rank' := AdoptRank(s.cameFrom, r.cameFrom, rank, c);
    if s.state == Auto {
      ExploreClosed(s, r);
    }
  }

  /**
   * mazeStep keeps a ready session ready, changes colours only, ends in
   * the same state or in Rest, and in Manual takes away exactly the front
   * cell of the worklist.
   */
  lemma StepReady(s: Session, rank: seq<nat>) returns (rank': seq<nat>)
    requires Ready(s, rank) && (s.state != Rest ==> s.frontier != [])
    ensures Ready(Step(s, rank), rank')
    ensures SameShape(s.cells, Step(s, rank).cells)
    ensures Step(s, rank).length == s.length && Step(s, rank).height == s.height
    ensures Step(s, rank).state == s.state || Step(s, rank).state == Rest
    ensures s.state == Manual && Step(s, rank).state == Manual ==> Step(s, rank).frontier == s.frontier[1..]
  {
    rank' := rank;
    if s.state != Rest {
      var c := s.frontier[0];
      assert c in s.frontier;
      if s.visited[c] {
        SkipReady(s, rank);
      } else if c == s.target {
        var path := CorrectPath(s.cameFrom, rank, Start, s.target);
        ShapeKeepsWellFormed(s.length, s.height, s.cells, Painted(s.cells, path));
      } else {
        rank' := ExploreReady(s, rank);
      }
    }
  }

  /**
   * When the front cell is the target, mazeStep rests with the path back
   * to the start painted Green: a walk through open walls from the target
   * to the start, without repeated cells.  Visited cells, origins and every
   * other colour stay as they were.
   */
  lemma StepFound(s: Session, rank: seq<nat>)
    requires Ready(s, rank) && s.state != Rest && s.frontier != []
    requires s.frontier[0] == s.target
    ensures var r := Step(s, rank);
            var path := CorrectPath(s.cameFrom, rank, Start, s.target);
            r.state == Rest && r.frontier == s.frontier[1..]
            && r.visited == s.visited && r.cameFrom == s.cameFrom
            && IsWalk(s.cells, path) && path[0] == s.target && Last(path) == Start && Distinct(path)
            && forall k | 0 <= k < |s.cells| ::
                 r.cells[k].color == (if k in path then Green else s.cells[k].color)
  {
    assert s.target in s.frontier && !s.visited[s.target];
    PathIsWalk(s.length, s.height, s.cells, s.cameFrom, rank, Start, s.target);
    PathDistinct(s.cameFrom, rank, Start, s.target);
  }

  /** The discovered cells are exactly the unvisited cells behind the open walls of the front cell. */
  lemma DiscoveredCells(s: Session)
    requires WellFormed(s.length, s.height, s.cells) && s.frontier != []
    requires s.frontier[0] < |s.cells| && |s.visited| == |s.cells|
    ensures forall y: nat :: y in Discovered(s) <==>
              y < |s.cells| && y != s.frontier[0] && !s.visited[y] && s.cells[s.frontier[0]].OpensTo(y)
  {
    var c := s.frontier[0];
    var ns := s.cells[c].Neighbors();
    NeighborsOnBoard(s.length, s.height, s.cells, c);
    var d := Discovered(s);
    UnvisitedIn(s.visited[c := true], ns);
    forall y: nat
      ensures y in d <==> y < |s.cells| && y != c && !s.visited[y] && s.cells[c].OpensTo(y)
    {
      if s.cells[c].OpensTo(y) {
        assert Opens(s.cells, c, y);
        OpensNotSelf(s.length, s.height, s.cells, c, y);
        var k :| 0 <= k < |ns| && ns[k] == Some(y);
      }
    }
  }

  /**
   * Visiting a cell during an automatic search: a Queue receives the
   * discovered neighbours behind the waiting cells in neighbors() order
   * (breadth first), a Stack in front of them in reverse order, so the
   * last one discovered comes out next (depth first).
   */
  lemma StepOrder(s: Session, rank: seq<nat>)
    requires Ready(s, rank) && s.state == Auto && s.frontier != []
    requires s.frontier[0] < |s.visited| && !s.visited[s.frontier[0]] && s.frontier[0] != s.target
    ensures s.kind == Queue ==> Step(s, rank).frontier == s.frontier[1..] + Discovered(s)
    ensures s.kind == Stack ==> Step(s, rank).frontier == Reverse(Discovered(s)) + s.frontier[1..]
  {
    assert Step(s, rank) == Explored(s);
    if s.kind == Queue {
      QueueOrder(s.frontier[1..], Discovered(s));
    } else {
      StackOrder(s.frontier[1..], Discovered(s));
    }
  }

  /** The search invariant of an automatic search keeps the worklist nonempty while the target can be reached. */
  lemma Progress(s: Session, rank: seq<nat>)
    requires Ready(s, rank) && s.state == Auto && Connected(s.cells, Start, s.target)
    ensures s.frontier != []
  {
    if s.frontier == [] {
      var p: seq<nat> :| IsWalk(s.cells, p) && p[0] == Start && Last(p) == s.target;
      var k := 0;
      while k < |p| - 1
        invariant 0 <= k < |p| && Seen(s.visited, p[k])
      {
        assert Opens(s.cells, p[k], p[k + 1]);
        k := k + 1;
      }
      assert false;
    }
  }

  /** resetSolution with an empty worklist sets up a search, Auto or Manual. */
  lemma ResetPlayable(s: Session, kind: Kind) returns (rank': seq<nat>)
    requires WellFormed(s.length, s.height, s.cells) && s.state != Rest
    ensures |s.cells| >= 1
    ensures Playable(Reset(s, kind, []), rank')
    ensures SameShape(s.cells, Reset(s, kind, []).cells)
    ensures var r := Reset(s, kind, []);
            r.frontier == [Start] && r.cameFrom[Start] == Some(Start)
            && forall x | 0 <= x < |s.cells| :: !r.visited[x] && (r.cameFrom[x].Some? <==> x == Start)
  {
    var n := |s.cells|;
    MulMono(s.height, s.length);
    var r := Reset(s, kind, []);
    rank' := seq(n, x => if x == Start then 1 else 0);
    ShapeKeepsWellFormed(s.length, s.height, s.cells, r.cells);
    assert r.frontier == [Start];
    forall x | 0 <= x < n
      ensures (r.cameFrom[x].Some? <==> rank'[x] > 0)
    {
    }
  }

  /**
   * arrowPress keeps a playable session playable: in particular, in
   * Manual the worklist keeps exactly one cell.  Only colours change on
   * the board.
   */
  lemma PressPlayable(s: Session, key: string, rank: seq<nat>) returns (rank': seq<nat>)
    requires Playable(s, rank)
    ensures Playable(Press(s, key, rank), rank')
    ensures SameShape(s.cells, Press(s, key, rank).cells)
  {
    rank' := rank;
    if s.state == Manual {
      var prev := s.frontier[0];
      var next := s.cells[prev].FindNext(key);
      if next.Some? {
        var c := next.value;
        MovedReady(s, rank, key);
        var m := Moved(s, c);
        rank' := StepReady(m, MovedRank(s, rank, c));
        assert SameShape(s.cells, Recolor(s.cells, prev, LightPink));
        assert SameShape(Recolor(s.cells, prev, LightPink), m.cells);
      } else {
        assert s.frontier == [prev];
      }
    } else {
      rank' := ResetPlayable(s.(state := Manual), Queue);
    }
  }

  /** In Manual, a press towards a closed wall changes nothing. */
  lemma IllegalPress(s: Session, key: string, rank: seq<nat>)
    requires Playable(s, rank) && s.state == Manual
    requires s.frontier[0] < |s.cells| && s.cells[s.frontier[0]].FindNext(key).None?
    ensures Press(s, key, rank) == s
  {
    assert s.frontier == [s.frontier[0]];
  }

  /**
   * In Manual, a press towards an open wall moves to the cell c behind it:
   * c keeps its origin or gets the old cell as origin; unless c is the
   * target, the session stays in Manual with the worklist [c], c visited
   * and Pink and the old cell LightPink; reaching the target paints it
   * Green and rests.
   */
  lemma LegalPress(s: Session, key: string, rank: seq<nat>)
    requires Playable(s, rank) && s.state == Manual
    requires s.frontier[0] < |s.cells| && s.cells[s.frontier[0]].FindNext(key).Some?
    ensures var prev := s.frontier[0];
            var c := s.cells[prev].FindNext(key).value;
            var r := Press(s, key, rank);
            c < |s.cells| && c != prev && |r.cameFrom| == |s.cameFrom| == |r.cells|
            && r.cameFrom[c] == (if s.cameFrom[c].Some? then s.cameFrom[c] else Some(prev))
            && (c != s.target ==>
                  r.state == Manual && r.frontier == [c] && r.visited == s.visited[c := true]
                  && r.cells[prev].color == LightPink && r.cells[c].color == Pink)
            && (c == s.target ==> r.state == Rest && r.cells[c].color == Green)
  {
    var prev := s.frontier[0];
    var c := s.cells[prev].FindNext(key).value;
    MovedReady(s, rank, key);
    assert Opens(s.cells, prev, c);
    OpensNotSelf(s.length, s.height, s.cells, prev, c);
    var m := Moved(s, c);
    var rank1 := MovedRank(s, rank, c);
    assert Step(m, rank1) == Press(s, key, rank);
    assert m.cells[prev].color == LightPink && m.cells[c].color == Pink;
    ManualStep(m, rank1, c);
  }

  /**
   * The search step taken right after a move to c: c is marked visited and
   * stays the current cell, unless it is the target, which ends the game.
   */
  lemma ManualStep(s: Session, rank: seq<nat>, c: nat)
    requires Ready(s, rank) && s.state == Manual && s.frontier == [c, c] && c < |s.cells|
    ensures var r := Step(s, rank);
            |r.cameFrom| == |s.cameFrom| == |r.cells| && r.cameFrom[c] == s.cameFrom[c]
            && (c != s.target ==>
                  r.state == Manual && r.frontier == [c] && r.visited == s.visited[c := true]
                  && r.cells[c].color == (if s.visited[c] then s.cells[c].color else Pink)
                  && forall k | 0 <= k < |s.cells| && k != c :: r.cells[k] == s.cells[k])
            && (c == s.target ==> r.state == Rest && r.cells[c].color == Green)
  {
    var r := Step(s, rank);
    if s.visited[c] {
      assert r == s.(frontier := [c]);
    } else if c == s.target {
      var path := CorrectPath(s.cameFrom, rank, Start, s.target);
      assert path[0] == c && c in path;
    } else {
      assert r == Explored(s);
      NeighborsOnBoard(s.length, s.height, s.cells, c);
      AdoptedEntries(s.visited[c := true], s.cameFrom, c, s.cells[c].Neighbors());
    }
  }

  /** onTick keeps a playable session playable and changes only colours. */
  lemma TickPlayable(s: Session, rank: seq<nat>) returns (rank': seq<nat>)
    requires Playable(s, rank) && (s.state == Auto ==> s.frontier != [])
    ensures Playable(Tick(s, rank), rank')
    ensures SameShape(s.cells, Tick(s, rank).cells)
  {
    rank' := rank;
    if s.state == Auto {
      rank' := StepReady(s, rank);
    }
  }

  /**
   * onKeyEvent keeps a playable session playable: "d" and "b" start an
   * automatic search from the start alone, with a Stack or a Queue; "r"
   * rests on the new board; other keys change only colours.
   */
  lemma KeyPlayable(s: Session, key: string, rank: seq<nat>, regenerated: seq<Cell>)
    returns (rank': seq<nat>)
    requires Playable(s, rank) && (key == "r" ==> WellFormed(s.length, s.height, regenerated))
    ensures Playable(KeyEvent(s, key, rank, regenerated), rank')
    ensures key == "d" || key == "b" ==>
              var r := KeyEvent(s, key, rank, regenerated);
              r.state == Auto && r.kind == (if key == "d" then Stack else Queue) && r.frontier == [Start]
              && (forall x | 0 <= x < |r.visited| :: !r.visited[x])
    ensures key == "r" ==> KeyEvent(s, key, rank, regenerated).state == Rest
    ensures key != "r" ==> SameShape(s.cells, KeyEvent(s, key, rank, regenerated).cells)
  {
    rank' := rank;
    if key == "d" {
      rank' := ResetPlayable(s.(state := Auto), Stack);
    } else if key == "b" {
      rank' := ResetPlayable(s.(state := Auto), Queue);
    } else if key == "r" {
    } else if IsArrow(key) {
      rank' := PressPlayable(s, key, rank);
    }
  }
}
