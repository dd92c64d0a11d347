// The two worklist collections of the solver (Stack and Queue, both over an
// ArrayDeque).  Both remove from the front; a Stack adds at the front
// (addFirst) and a Queue at the back (addLast).

module Frontiers {
  import opened Seqs

  /** Which collection: Stack is last in, first out; Queue is first in, first out. */
  datatype Kind = Stack | Queue

  /** The contents after add(x). */
  function Added<T>(kind: Kind, s: seq<T>, x: T): (r: seq<T>)
    ensures |r| == |s| + 1
  {
    if kind == Stack then [x] + s else s + [x]
  }

  /**
   * Adding one item twice to a collection of one item leaves it holding
   * only the new item, twice.  Search.MovedSession uses it to show that a
   * legal arrow press in Manual keeps exactly one cell waiting.
   */
  lemma AddedTwice<T>(kind: Kind, s: seq<T>, x: T)
    requires |s| == 1
    ensures Added(kind, Added(kind, s[1..], x), x) == [x, x]
  {
    assert s[1..] == [];
  }

  /** The contents after adding the items of xs one after another. */
  function AddAll<T>(kind: Kind, s: seq<T>, xs: seq<T>): (r: seq<T>)
    ensures |r| == |s| + |xs|
  {
    if xs == [] then s else Added(kind, AddAll(kind, s, xs[..|xs| - 1]), xs[|xs| - 1])
  }

  /** Adding one more item after a run of them is one more add. */
  lemma AddAllSnoc<T>(kind: Kind, s: seq<T>, xs: seq<T>, x: T)
    ensures AddAll(kind, s, xs + [x]) == Added(kind, AddAll(kind, s, xs), x)
  {
    assert (xs + [x])[..|xs|] == xs;
  }

  /** Whatever a collection holds after adding was there before or was added, and conversely. */
  lemma {:induction false} AddAllIn<T>(kind: Kind, s: seq<T>, xs: seq<T>, ys: seq<T>)
    requires ys == AddAll(kind, s, xs)
    ensures forall y | y in ys :: y in s || y in xs
    ensures forall y | y in s || y in xs :: y in ys
  {
    AddAllElements(kind, s, xs);
    assert multiset(ys) == multiset(s) + multiset(xs);
    forall y | y in ys
      ensures y in s || y in xs
    {
      assert y in multiset(ys);
    }
    forall y | y in s || y in xs
      ensures y in ys
    {
      assert y in multiset(s) + multiset(xs);
    }
  }

  /** A queue hands items back in the order they were added, after what it already held. */
  lemma {:induction false} QueueOrder<T>(s: seq<T>, xs: seq<T>)
    ensures AddAll(Queue, s, xs) == s + xs
  {
    if xs != [] {
      QueueOrder(s, xs[..|xs| - 1]);
      assert s + xs == (s + xs[..|xs| - 1]) + [xs[|xs| - 1]];
    }
  }

  /** A stack hands the items added last back first, before what it already held. */
  lemma {:induction false} StackOrder<T>(s: seq<T>, xs: seq<T>)
    ensures AddAll(Stack, s, xs) == Reverse(xs) + s
  {
    if xs != [] {
      StackOrder(s, xs[..|xs| - 1]);
      var init := xs[..|xs| - 1];
      assert Reverse(xs) == [xs[|xs| - 1]] + Reverse(init);
    }
  }

  /** The elements a collection holds after adding are the old ones and the added ones. */
  lemma {:induction false} AddAllElements<T>(kind: Kind, s: seq<T>, xs: seq<T>)
    ensures multiset(AddAll(kind, s, xs)) == multiset(s) + multiset(xs)
  {
    if xs != [] {
      AddAllElements(kind, s, xs[..|xs| - 1]);
      assert xs == xs[..|xs| - 1] + [xs[|xs| - 1]];
    }
  }

  /** An ICollection: a Stack or a Queue together with its contents, front first. */
  class Frontier<T> {
    const kind: Kind
    var contents: seq<T>

    /** new Stack<T>() or new Queue<T>(): empty. */
    constructor (kind: Kind)
      ensures this.kind == kind && contents == []
    {
      this.kind := kind;
      contents := [];
    }

    /** isEmpty */
    function IsEmpty(): (b: bool)
      reads this
      ensures b <==> |contents| == 0
    {
      contents == []
    }

    /** add: addFirst for a Stack, addLast for a Queue. */
    method Add(x: T)
      modifies this
      ensures contents == Added(kind, old(contents), x)
    {
      if kind == Stack {
        contents := [x] + contents;
      } else {
        contents := contents + [x];
      }
    }

    /** remove: removeFirst, which throws on an empty deque. */
    method Remove() returns (x: T)
      requires contents != []
      modifies this
      ensures x == old(contents)[0] && contents == old(contents)[1..]
    {
      x := contents[0];
      contents := contents[1..];
    }
  }

  /** add then remove on a stack gives back the item just added and the old contents. */
  lemma StackAddRemove<T>(s: seq<T>, x: T)
    ensures Added(Stack, s, x)[0] == x && Added(Stack, s, x)[1..] == s
  {}

  /** add then remove on a nonempty queue gives back its old front, and the item goes last. */
  lemma QueueAddRemove<T>(s: seq<T>, x: T)
    requires s != []
    ensures Added(Queue, s, x)[0] == s[0] && Added(Queue, s, x)[1..] == s[1..] + [x]
  {}
}
