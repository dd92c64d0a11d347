// The representatives table of the maze generator (HashMapUtils.find and the
// union `representatives.replace(toRep, fromRep)`).  The generator puts
// every cell name 0..n-1 into the table before it starts, so the table is a
// sequence indexed by cell name: entry x is x's parent, and a cell that is its
// own parent is a representative.  The ghost depth sequence orders every
// chain towards its representative, which is what makes find terminate.

module UnionFind {

  /** Every parent is a cell, and every non-root is deeper than its parent. */
  ghost predicate Forest(reps: seq<nat>, depth: seq<nat>)
  {
    |depth| == |reps|
    && forall x {:trigger reps[x]} | 0 <= x < |reps| ::
         reps[x] < |reps| && (reps[x] != x ==> depth[reps[x]] < depth[x])
  }

  /** The representative of x: follow parents until a cell is its own parent. */
  function Find(reps: seq<nat>, ghost depth: seq<nat>, x: nat): (r: nat)
    requires Forest(reps, depth) && x < |reps|
    ensures r < |reps| && reps[r] == r
    decreases depth[x]
  {
    if reps[x] == x then x else Find(reps, depth, reps[x])
  }

  /** The representatives themselves. */
  ghost function Roots(reps: seq<nat>): set<nat>
  {
    set x: nat | x < |reps| && reps[x] == x
  }

  /** A representative is its own representative. */
  lemma FindRoot(reps: seq<nat>, depth: seq<nat>, x: nat)
    requires Forest(reps, depth) && x < |reps|
    ensures Find(reps, depth, Find(reps, depth, x)) == Find(reps, depth, x)
    ensures Find(reps, depth, x) in Roots(reps)
  {}

  /** Following one parent link does not change the representative. */
  lemma FindParent(reps: seq<nat>, depth: seq<nat>, x: nat)
    requires Forest(reps, depth) && x < |reps|
    ensures Find(reps, depth, reps[x]) == Find(reps, depth, x)
  {}

  /** The representative of x once representative b has been merged into a. */
  ghost function Moved(reps: seq<nat>, depth: seq<nat>, a: nat, b: nat, x: nat): nat
    requires Forest(reps, depth) && x < |reps|
  {
    if Find(reps, depth, x) == b then a else Find(reps, depth, x)
  }

  /** Depths after hanging root b below root a: b's whole tree moves below a. */
  ghost function Hung(reps: seq<nat>, depth: seq<nat>, a: nat, b: nat): seq<nat>
    requires Forest(reps, depth) && a < |reps|
  {
    seq(|reps|, y requires 0 <= y < |reps| =>
      if Find(reps, depth, y) == b then depth[y] + depth[a] + 1 else depth[y])
  }

  lemma {:induction false} FindAfterUnion(reps: seq<nat>, depth: seq<nat>, a: nat, b: nat,
                                          depth': seq<nat>, x: nat)
    requires Forest(reps, depth) && a in Roots(reps) && b in Roots(reps) && a != b && x < |reps|
    requires Forest(reps[b := a], depth')
    ensures Find(reps[b := a], depth', x) == Moved(reps, depth, a, b, x)
    decreases depth[x]
  {
    if reps[x] != x {
      FindAfterUnion(reps, depth, a, b, depth', reps[x]);
    }
  }

  lemma UnionFinds(reps: seq<nat>, depth: seq<nat>, a: nat, b: nat, depth': seq<nat>)
    requires Forest(reps, depth) && a in Roots(reps) && b in Roots(reps) && a != b
    requires Forest(reps[b := a], depth')
    ensures forall x | 0 <= x < |reps| :: Find(reps[b := a], depth', x) == Moved(reps, depth, a, b, x)
  {
    forall x | 0 <= x < |reps|
      ensures Find(reps[b := a], depth', x) == Moved(reps, depth, a, b, x)
    {
      FindAfterUnion(reps, depth, a, b, depth', x);
    }
  }

  lemma UnionForest(reps: seq<nat>, depth: seq<nat>, a: nat, b: nat) returns (depth': seq<nat>)
    requires Forest(reps, depth) && a in Roots(reps) && b in Roots(reps) && a != b
    ensures Forest(reps[b := a], depth')
  {
    var reps' := reps[b := a];
    depth' := Hung(reps, depth, a, b);
    forall y | 0 <= y < |reps'|
      ensures reps'[y] < |reps'| && (reps'[y] != y ==> depth'[reps'[y]] < depth'[y])
    {
      if y != b && reps[y] != y {
        FindParent(reps, depth, y);
      }
    }
  }

  lemma UnionRoots(reps: seq<nat>, a: nat, b: nat)
    requires a < |reps| && b in Roots(reps) && a != b
    ensures Roots(reps[b := a]) == Roots(reps) - {b}
  {
    var reps' := reps[b := a];
    forall x: nat
      ensures x in Roots(reps') <==> x in Roots(reps) && x != b
    {
      if x < |reps| && x != b {
        assert reps'[x] == reps[x];
      }
    }
  }

  /**
   * The union step: making root a the parent of root b keeps a forest, sends
   * every cell whose representative was b to a, leaves every other cell's
   * representative alone, and removes exactly b from the representatives.
   */
  lemma Union(reps: seq<nat>, depth: seq<nat>, a: nat, b: nat) returns (depth': seq<nat>)
    requires Forest(reps, depth) && a in Roots(reps) && b in Roots(reps) && a != b
    ensures Forest(reps[b := a], depth')
    ensures forall x | 0 <= x < |reps| :: Find(reps[b := a], depth', x) == Moved(reps, depth, a, b, x)
    ensures Roots(reps[b := a]) == Roots(reps) - {b}
  {
    depth' := UnionForest(reps, depth, a, b);
    UnionRoots(reps, a, b);
    UnionFinds(reps, depth, a, b, depth');
  }

  /** A nonempty forest has a representative. */
  lemma SomeRoot(reps: seq<nat>, depth: seq<nat>)
    requires Forest(reps, depth) && |reps| > 0
    ensures |Roots(reps)| >= 1
  {
    FindRoot(reps, depth, 0);
  }

  /** Two representatives in a set of one are the same. */
  lemma SingleRoot(reps: seq<nat>, depth: seq<nat>, x: nat, y: nat)
    requires Forest(reps, depth) && x < |reps| && y < |reps| && |Roots(reps)| == 1
    ensures Find(reps, depth, x) == Find(reps, depth, y)
  {
    var rx, ry := Find(reps, depth, x), Find(reps, depth, y);
    assert rx in Roots(reps) && ry in Roots(reps);
    if rx != ry {
      assert {rx, ry} <= Roots(reps);
      assert |{rx, ry}| == 2;
      SubsetCard({rx, ry}, Roots(reps));
    }
  }

  /** With a single representative left, it is every cell's representative. */
  lemma SameRoot(reps: seq<nat>, depth: seq<nat>) returns (root: nat)
    requires Forest(reps, depth) && |Roots(reps)| == 1
    ensures forall x | 0 <= x < |reps| :: Find(reps, depth, x) == root
  {
    root :| root in Roots(reps);
    forall x | 0 <= x < |reps|
      ensures Find(reps, depth, x) == root
    {
      SingleRoot(reps, depth, x, root);
    }
  }

  lemma SubsetCard(a: set<nat>, b: set<nat>)
    requires a <= b
    ensures |a| <= |b|
  {
    assert b == a + (b - a);
  }
}
