# Maze game: generation and solving, modelled in Dafny

This project models the non-graphical core of the maze game in
`src/Maze.java`. The game has four parts:

- **Board.** A `length` x `height` grid of cells in row-major order. Each
  cell links to its four neighbours and has four wall flags.
- **Generation.** `createMaze` carves a maze with randomized Kruskal over a
  union-find table of representatives. It draws walls with
  `nextInt(size - 1)` and opens every drawn wall that joins two different
  trees.
- **Worklists.** The two worklist collections: a Stack (add at the front)
  and a Queue (add at the back), both removing from the front.
- **Solving.** A `Maze` world with three states: Auto, Manual and Rest.
  - `d` starts a depth-first search (Stack).
  - `b` starts a breadth-first search (Queue).
  - The arrow keys move by hand.
  - `r` draws a new board.
  - On every tick an automatic search takes one `mazeStep`.
  - When the target (the last cell) comes off the worklist,
    `findCorrectPath` paints the way back to the start Green.

The model has these modules:

- **`Seqs`**: sequence helpers.
- **`Grid`**: cells, walls, walks and connectivity.
- **`Edges`**: the wall list that `createMaze` starts from.
- **`UnionFind`**: the representatives table and `find`.
- **`Kruskal`**: the invariant of the carving loop.
- **`Boards`**: the board as a class, with `initilizeBoard`,
  `connectCells`, `changeColor`, `Edge.unionCells` and `createMaze` as
  methods.
- **`Frontiers`**: the Stack/Queue collection, as a class.
- **`Paths`**: the `cameFrom` table and `findCorrectPath`'s path.
- **`Search`**: the solver as a state machine over a `Session` value, with
  one function per handler.
- **`Game`**: the `Maze` class itself. Each of its methods (`OnTick`,
  `OnKeyEvent`, `ArrowPress`, `MazeStep`, `ResetSolution`) is proved to
  leave its fields as the matching `Search` function gives. `Search` then
  proves what those functions keep:
  - the search invariant: origins lead back to the start through open
    walls;
  - in Manual, the worklist holds exactly one cell;
  - the painted answer is a repetition-free walk from the target to the
    start.
- **`Fixtures`**: the 3 x 3 board carved from seed 4632, written out, and
  the breadth-first search of testMazeStep replayed on it step by step,
  with the path testFindCorrectPath expects.

Java's hash maps keyed by cells become sequences indexed by cell name;
every cell's name is its index on the board. `java.util.Random` becomes a
`pick(k, bound)` oracle giving the k-th draw, plus a `fuel` bound on the
number of draws.

Several properties are proved of the code as written:

- The draw `nextInt(size - 1)` never reaches the last wall of the list, so
  that wall stays closed (`Boards.Board.CreateMaze`).
- Consequently, on a board of a single row or a single column (at least two
  cells), `createMaze` never finishes: the draw bound reaches 0 and
  `nextInt` would throw, or the draws run out (`Edges.LineCutOff`).
- Whenever the carving does finish, the open walls form a spanning tree.

## Model

| member | source | states |
|---|---|---|
| Grid.Cell.Neighbors | src/Maze.java:133-149 | at most four entries; a cell b is listed exactly when a wall of this cell towards b is open; None is listed only for an opened wall without a neighbour |
| Grid.Cell.FindNext | src/Maze.java:152-173 | a move exists exactly when the key names a side with a neighbour whose wall is open, and it goes to that neighbour |
| Grid.Cell.MakeEdge | src/Maze.java:108-112 | no edge without a neighbour, else exactly the edge from the neighbour to this cell |
| Grid.Recolor | src/Maze.java:115-117 | changeColor: cell c gets the colour, its walls and links stay, every other cell stays |
| Grid.OpensSymmetric | src/Maze.java:121-130 | on a well-formed board an open wall is open from both sides |
| Grid.NeighborsOnBoard | src/Maze.java:133-149 | on a well-formed board every entry of neighbors() is a cell of the board |
| Grid.OpensNotSelf | src/Maze.java:133-149 | no open wall leads from a cell to itself |
| Grid.FindNextOnBoard | src/Maze.java:152-173 | on a well-formed board an arrow key moves exactly when the wall on its side is open, to the neighbour on that side; other keys never move |
| Grid.OpenedLinks | src/Maze.java:121-130 | union keeps every name and link and never closes a wall |
| Grid.LinkedForward | src/Maze.java:119-121 | the cell to the right or below is on the board and comes later |
| Grid.OpenedLinked | src/Maze.java:121-130 | union keeps every cell linked to its grid neighbours |
| Grid.OpenedReciprocal | src/Maze.java:121-130 | union towards the right or bottom neighbour opens the wall from both sides |
| Grid.OpenedWalls | src/Maze.java:358-363 | unionCells keeps the board well formed and opens exactly the wall between the two cells, from both sides; no other wall opens |
| Grid.ShapeKeepsWellFormed | src/Maze.java:115-117 | recolouring keeps the board well formed and keeps every open wall and every closed one |
| Grid.ShapeKeepsConnected | src/Maze.java:115-117 | recolouring keeps a connected board connected |
| Edges.GridEdgesExact | src/Maze.java:218-225 | the wall list holds exactly the pairs of a cell and its left or top neighbour |
| Edges.GridEdgesDistinct | src/Maze.java:218-225 | no wall is listed twice |
| Edges.GridEdgesCount | src/Maze.java:218-225 | the list has length*(height-1) + height*(length-1) walls |
| Edges.GridEdgeAdjacent | src/Maze.java:119-130 | every listed wall goes from a cell to its right or bottom neighbour, as union assumes |
| Edges.LastGridEdge | src/Maze.java:218-225 | the last listed wall enters the last cell from the top, or from the left on a single row |
| Edges.LineCutOff | src/Maze.java:231-232 | on one row or one column the last cell is cut off while the last listed wall is closed |
| Edges.HorizontalStep | src/Maze.java:222-223 | each cell off the first column adds one horizontal wall to the list |
| Edges.GridEdgesCountUpTo | src/Maze.java:218-225 | the first p cells list as many walls as they have left and top neighbours |
| UnionFind.Find | src/Maze.java:317-324 | find returns a representative (a cell that is its own parent) |
| UnionFind.FindRoot | src/Maze.java:317-324 | a representative is its own representative |
| UnionFind.FindParent | src/Maze.java:317-324 | following one parent keeps the representative |
| UnionFind.Union | src/Maze.java:237 | replace(toRep, fromRep) keeps find terminating, sends exactly toRep's tree to fromRep and removes one representative |
| UnionFind.FindAfterUnion | src/Maze.java:237 | after the union each cell's representative is the merged one |
| UnionFind.UnionForest | src/Maze.java:237 | after the union find still terminates |
| UnionFind.UnionRoots | src/Maze.java:237 | the union removes exactly toRep from the representatives |
| UnionFind.UnionFinds | src/Maze.java:237 | the union moves exactly the cells of toRep's tree |
| UnionFind.SomeRoot | src/Maze.java:228-231 | a nonempty board has a representative |
| UnionFind.SingleRoot | src/Maze.java:231 | with one representative left all cells share it |
| UnionFind.SameRoot | src/Maze.java:231 | with one representative left, find gives it for every cell |
| Kruskal.StartPool | src/Maze.java:215-227 | before the loop every listed wall is closed, listed once and on the board, and no wall is open |
| Kruskal.StartWalks | src/Maze.java:220 | every cell its own representative, reached by the one-cell walk |
| Kruskal.Start | src/Maze.java:215-228 | the carving invariant holds before the loop |
| Kruskal.AcceptEdge | src/Maze.java:238-239 | opening the drawn wall removes exactly it from the pool of closed walls and adds one open wall |
| Kruskal.Reroot | src/Maze.java:236-238 | after the wall opens, every cell has a walk to its merged representative |
| Kruskal.Relabel | src/Maze.java:237 | those walks reach the representatives of the updated table |
| Kruskal.Accept | src/Maze.java:232-241 | an accepted wall opens, merges two representatives, leaves the pool and counts: the invariant holds again |
| Kruskal.OneTree | src/Maze.java:231 | walks all ending at one representative connect every pair of cells |
| Kruskal.Done | src/Maze.java:231 | with size - 1 walls used, exactly size - 1 walls are open and every cell reaches every other (a spanning tree) |
| Boards.JoinStep | src/Maze.java:184-189 | adding and connecting cell i*length+j extends a connected grid by one cell |
| Boards.SeedEdges | src/Maze.java:222-224 | the two makeEdge calls of a cell give its left wall, then its top wall |
| Boards.Board.constructor | src/Maze.java:181-193 | initilizeBoard before carving: a well-formed grid, all walls closed, start Pink, last cell Green, the rest Gray |
| Boards.Board.ConnectCells | src/Maze.java:201-210 | links cell place to its left and top neighbours both ways, as Joined states |
| Boards.Board.ChangeColor | src/Maze.java:115-117 | the board after Cell.changeColor on one cell |
| Boards.Board.UnionCells | src/Maze.java:358-363 | the board after opening the edge's wall |
| Boards.Board.CreateMaze | src/Maze.java:214-243 | keeps the board well formed and all colours; when carving finishes, size - 1 walls are open and all cells are connected; the last listed wall is never opened; one-row and one-column boards never finish |
| Boards.InitializeBoard | src/Maze.java:181-197 | a fresh well-formed board with the start colours, carved as CreateMaze states |
| Frontiers.Frontier.constructor | src/Maze.java:265-267 | a new Stack or Queue is empty |
| Frontiers.Frontier.IsEmpty | src/Maze.java:270-272 | true exactly when nothing is held |
| Frontiers.Frontier.Add | src/Maze.java:281-283 | the contents after adding at the front (Stack) or the back (Queue) |
| Frontiers.Frontier.Remove | src/Maze.java:276-278 | returns the front and drops it; needs a nonempty collection |
| Frontiers.Added | src/Maze.java:307-309 | one add makes the collection one longer |
| Frontiers.AddAll | src/Maze.java:468-473 | adding a run of items makes it longer by that many |
| Frontiers.QueueOrder | src/Maze.java:307-309 | a Queue holds what it held, then the added items in order |
| Frontiers.StackOrder | src/Maze.java:281-283 | a Stack holds the added items last first, then what it held |
| Frontiers.AddAllElements | src/Maze.java:252-253 | after adding, the elements are the old ones plus the added ones, with multiplicity |
| Frontiers.AddAllIn | src/Maze.java:252-253 | an item is held after adding exactly when it was held before or was added |
| Frontiers.StackAddRemove | src/Maze.java:276-283 | a Stack hands back the item just added, and the rest is unchanged |
| Frontiers.QueueAddRemove | src/Maze.java:302-309 | a nonempty Queue hands back its old front and the new item goes last |
| Paths.PutIfAbsent | src/Maze.java:470 | the key gets an origin; the first one recorded is kept and no other entry changes |
| Paths.CorrectPath | src/Maze.java:327-341 | the path starts at current and ends at start, and each cell on it but the last is followed by its origin |
| Paths.PathDistinct | src/Maze.java:327-341 | no cell appears on the path twice |
| Paths.PathIsWalk | src/Maze.java:327-341 | when every origin is open towards its cell, the path is a walk through open walls |
| Paths.Painted | src/Maze.java:331-337 | cells on the path become Green, every other cell keeps its colour, and no wall changes |
| Paths.PaintedCons | src/Maze.java:336-338 | painting current after the rest of the path paints the longer path |
| Search.Unvisited | src/Maze.java:468-469 | no more cells are kept than listed |
| Search.Adopted | src/Maze.java:468-470 | the table keeps its size |
| Search.UnvisitedIn | src/Maze.java:468-473 | the cells handed on are exactly the listed unvisited neighbours |
| Search.AdoptedEntries | src/Maze.java:468-470 | c becomes the origin of exactly the listed unvisited neighbours that had none; every other entry stays |
| Search.UnvisitedSnoc | src/Maze.java:468-473 | one more neighbour looked at is handed on exactly when unvisited |
| Search.AdoptedSnoc | src/Maze.java:468-470 | one more neighbour looked at gets c as origin exactly when unvisited and without one |
| Search.StepExplores | src/Maze.java:464-476 | a step onto an unvisited non-target cell explores it |
| Search.Restarted | src/Maze.java:518-527 | resetSolution's colours: start Pink, last cell Green, all others Gray; no wall changes |
| Search.Unseen | src/Maze.java:514-519 | no cell visited |
| Search.NoOrigins | src/Maze.java:515 | no cell has an origin |
| Search.GrayedStep | src/Maze.java:518-521 | each pass of the loop paints one more cell Gray |
| Search.Repainted | src/Maze.java:518-527 | the loop and the two final paints give the restarted board |
| Search.MovedReady | src/Maze.java:485-494 | a legal press leads to a cell of the board, keeps the search invariant and leaves that cell twice on the worklist |
| Search.MovedSession | src/Maze.java:489-494 | moving from the waiting cell through an open wall keeps the search invariant |
| Search.MovedParts | src/Maze.java:489-492 | both recolourings and the new origin keep the board well formed and the origins leading to the start through open walls |
| Search.ManualReady | src/Maze.java:484-485 | the search invariant of a Manual session follows from its parts |
| Search.PutChains | src/Maze.java:492 | an origin that has an origin itself keeps the origins leading back to the start |
| Search.PutTree | src/Maze.java:492 | an origin across an open wall keeps every origin open towards its cell |
| Search.SkipReady | src/Maze.java:457-459 | dropping a visited cell keeps the search invariant |
| Search.AdoptChains | src/Maze.java:468-470 | recording c as origin of its unvisited neighbours keeps the origins leading to the start |
| Search.AdoptTree | src/Maze.java:468-470 | recording c as origin of its open neighbours keeps every origin open towards its cell |
| Search.ExploreClosed | src/Maze.java:464-476 | visiting c keeps an automatic search closed: no open wall leads from a visited cell to a cell that is neither visited nor waiting |
| Search.ExploreFrontier | src/Maze.java:468-473 | after visiting c every waiting cell has an origin |
| Search.ExploreReady | src/Maze.java:464-476 | visiting a cell keeps the search invariant |
| Search.StepReady | src/Maze.java:453-478 | mazeStep keeps the search invariant, changes colours only, stays in its state or rests, and in Manual takes away exactly the front cell |
| Search.StepPaints | src/Maze.java:460-463 | a step onto the unvisited target takes it off the worklist, paints the path back to the start and rests, changing nothing else |
| Search.StepFound | src/Maze.java:460-463 | reaching the target rests with the path painted Green: a walk through open walls from the target to the start without repeats, nothing else changed |
| Search.DiscoveredCells | src/Maze.java:465-475 | the cells handed on are exactly the unvisited cells behind the open walls of the visited cell |
| Search.StepOrder | src/Maze.java:468-473 | a Queue takes the new cells behind the waiting ones in neighbors() order (breadth first), a Stack in front in reverse order (depth first) |
| Search.Progress | src/Maze.java:455 | while the target is reachable an automatic search never empties its worklist |
| Search.ResetPlayable | src/Maze.java:512-529 | resetSolution with an empty collection sets up a search: only the start waiting, only the start with an origin (itself), nothing visited; the board changes colours only |
| Search.PressPlayable | src/Maze.java:483-509 | arrowPress keeps the game playable, in Manual with exactly one waiting cell, and changes colours only |
| Search.IllegalPress | src/Maze.java:500-502 | a press towards a closed wall changes nothing |
| Search.LegalPress | src/Maze.java:485-499 | a press through an open wall moves to the cell c behind it, recording its origin unless it has one; unless c is the target, the game stays Manual with c alone waiting, c visited and Pink and the old cell light pink; the target rests Green |
| Search.ManualStep | src/Maze.java:493-498 | the step after a move marks c visited and leaves it alone on the worklist, or ends the game at the target |
| Search.TickPlayable | src/Maze.java:413-417 | onTick keeps the game playable and changes colours only |
| Search.KeyPlayable | src/Maze.java:420-449 | onKeyEvent keeps the game playable; "d" and "b" start from the start alone with a Stack or a Queue, nothing visited; "r" rests; other keys change colours only |
| Game.FindCorrectPath | src/Maze.java:327-341 | returns CorrectPath from current to start and paints exactly its cells Green |
| Game.Maze.constructor | src/Maze.java:390-398 | a fresh board of the given size drawn by initilizeBoard, at rest, with the start colours; if the drawing finished, its open walls are one fewer than the cells and connect every cell to every other; a board one cell wide or high never finishes |
| Game.Maze.Of | src/Maze.java:380-387 | the given board, at rest, not drawn here |
| Game.Maze.MazeStep | src/Maze.java:453-478 | the fields afterwards are Search.Step of the fields before; the search invariant is kept |
| Game.Maze.Discover | src/Maze.java:468-475 | the loop gives cameFrom as Adopted and, in Auto, adds the unvisited neighbours in order |
| Game.Maze.ArrowPress | src/Maze.java:483-509 | the fields afterwards are Search.Press of the fields before; the game stays playable and only colours change |
| Game.Maze.ResetSolution | src/Maze.java:512-529 | the fields afterwards are Search.Reset with the given collection |
| Game.Maze.OnTick | src/Maze.java:413-417 | the fields afterwards are Search.Tick of the fields before; the game stays playable, only colours change, and a connected board stays connected |
| Game.Maze.AutoHasWork | src/Maze.java:455 | on a connected board an automatic search has a cell to remove on every tick |
| Game.Maze.OnKeyEvent | src/Maze.java:420-449 | the fields afterwards are Search.KeyEvent of the fields before; "r" brings a fresh board with the start colours and returns the drawing's outcome, a spanning tree of open walls when it finished as for the constructor; other keys keep the board and its walls, so a connected board stays connected |
| Fixtures.LayoutWellFormed | src/Maze.java:1356-1400 | the board that createMaze carves from seed 4632, with the walls testCreateMaze expects, is a well-formed 3 x 3 board |
| Fixtures.Begin4632 | src/Maze.java:880-902 | testMazeStep's set-up (Auto, a Queue holding the start, nothing visited, only the start with an origin, target 8) on the fresh seed-4632 board is what "b" gives |
| Fixtures.ReadyAt | src/Maze.java:880-928 | the search invariant holds before each of the nine calls of mazeStep |
| Fixtures.StepAt | src/Maze.java:904-928 | each of the first eight calls of mazeStep visits the next cell in breadth-first order and hands on its unvisited neighbours |
| Fixtures.FinishAt | src/Maze.java:928-941 | the ninth call finds the target and paints the path 8, 7, 4, 1, 0 |
| Fixtures.BreadthFirst4632 | src/Maze.java:880-941 | from the game at rest, "b" and nine calls of mazeStep go through the listed sessions, each step keeping the search invariant |
| Fixtures.FirstSteps4632 | src/Maze.java:904-920 | after the first call the worklist is [1], cell 0 is visited and Pink, 1 has origin 0 and is Gray; after the second it is [4, 2], cell 1 is visited and Pink, and 4 and 2 have origin 1 |
| Fixtures.Final4632 | src/Maze.java:930-942 | the search ends at rest with 0, 1, 4, 7, 8 Green and 2, 3, 5, 6 Pink |
| Fixtures.PathOf4632 | src/Maze.java:1008-1037 | with the cameFrom table of testFindCorrectPath, the path back from cell 8 is 8, 7, 4, 1, 0 |

## Left out

- Drawing (`makeScene`, `drawCell`), the cell pixel coordinates `x`, `y` and `cellSize`: they only place images. `Maze(length, height)` requires positive sizes, as `1000 / length` and `600 / height` demand.
- `java.util.Random`: the draws are the parameter `pick(k, bound)`, assumed to lie below its bound, and `fuel` caps how many draws are offered. `createMaze` therefore always ends, as Built, BadBound or OutOfFuel. BadBound is where `nextInt(0)` would throw; OutOfFuel is where the Java loop would keep drawing.
- Boards.Board.CreateMaze: the Java loop may never end. The Built case states what holds when it does end; the model does not state that it ends for a given random sequence.
- Object identity: cells are values named by their index. The `HashMap<Cell, …>` tables are sequences indexed by cell name, and `HashMap<Integer, Integer>` is a sequence of parents.
- Java `int` overflow: sizes and cell names are unbounded naturals. Boards whose cell count overflows an `int` are not modelled.
- The fields the Java constructors leave null (`worklist`, `visited`, `cameFrom`, `target`) are an empty Queue, empty tables and target 0. At rest the model never reads them.
- Game.Maze.Of: takes `length` and `height` from the board rather than as separate arguments, so the two always agree. `cellSize` is not modelled.
- Game.Maze.Of: requires a well-formed board, while Java accepts any list of cells. testInitilizeBoard builds a malformed 2 x 2 board only to draw it, and drawing is not modelled.
- Game.Maze.constructor: the outcome of the first drawing is kept in the ghost constant `firstDrawing`; after "r" the new outcome is what OnKeyEvent returns. The Java code keeps neither.
- The seed-4632 board is written out in `Fixtures`, as testCreateMaze expects it after createMaze; the model does not derive it from the draws of `java.util.Random`. The Manual halves of testMazeStep and testArrowPress are not replayed.
- Game.Maze.MazeStep and Game.Maze.OnTick: `remove` on an empty worklist throws in Java. Here a nonempty worklist is a precondition. Game.Maze.AutoHasWork shows the precondition always holds in Auto on a connected board.
- Game.Maze.OnKeyEvent: after "r" the old `visited`, `cameFrom`, `worklist` and `target` stay as they were, for the old board. The model keeps them too. They are not read again before the next reset, because only arrow keys, "d" and "b" leave Rest, and all of them reset.
- Game.Maze.Discover is a separate method holding the `for` loop of `mazeStep`. `MazeStep` calls it at that point.
- The ranks ordering the origins are ghost state used only for the proof that the path back from a cell terminates. The Java code has no such field.
