/**
 * The class FibonacciHeap of src/utils/fibonacciAlgorithms.js, with its
 * fields updated in place.  The node array plays the part of the node
 * objects (node i is entry i, links are indices, NIL is null); every method
 * runs the source's statements in order and is proved to leave the heap
 * exactly as the matching function of module FibHeap describes, so the
 * properties proved there hold of the object.
 */
module FibHeapInPlace {
  import opened FibHeap

  class FibonacciHeap {
    var nodes: seq<Node>
    var min: int
    var n: int
    var operations: seq<Operation>

    /** The heap as a value. */
    function Model(): Heap
      reads this
    {
      Heap(nodes, min, n, operations)
    }

    /** Every link names a node, or is null where null is allowed. */
    predicate Valid()
      reads this
    {
      Arena(Model())
    }

    /** new FibonacciHeap(): no min, a count of 0, an empty log. */
    constructor()
      ensures Valid() && Model() == EmptyHeap()
    {
      nodes := [];
      min := NIL;
      n := 0;
      operations := [];
    }

    /** insert(key, value): returns the new node. */
    method Insert(key: int, value: Option<string>) returns (node: int)
      requires Valid()
      modifies this
      ensures Valid() && (Model(), node) == FibHeap.Insert(old(Model()), key, value)
    {
      node := |nodes|;
      nodes := nodes + [Singleton(key, value, node)];
      assert Arena(Model());
      if min == NIL {
        min := node;
      } else {
        AddToRootList(node);
        if key < nodes[min].key {
          min := node;
        }
      }
      n := n + 1;
      operations := operations + [InsertOp(key, n)];
    }

    /** addToRootList(node) */
    method AddToRootList(node: int)
      requires Valid() && 0 <= node < |nodes|
      modifies this
      ensures Valid() && Model() == FibHeap.AddToRootList(old(Model()), node)
    {
      if min == NIL {
        min := node;
      } else {
        ghost var ns := nodes;
        assert NodeIn(nodes[min], |nodes|);
        nodes := nodes[node := nodes[node].(right := nodes[min].right)];
        nodes := nodes[node := nodes[node].(left := min)];
        var r := nodes[min].right;
        nodes := nodes[r := nodes[r].(left := node)];
        nodes := nodes[min := nodes[min].(right := node)];
        assert nodes == SpliceAfter(ns, node, min);
      }
    }

    /** removeFromRootList(node) */
    method RemoveFromRootList(node: int)
      requires Valid() && 0 <= node < |nodes|
      modifies this
      ensures Valid() && Model() == FibHeap.RemoveFromRootList(old(Model()), node)
    {
      ghost var ns := nodes;
      assert NodeIn(nodes[node], |nodes|);
      var l := nodes[node].left;
      nodes := nodes[l := nodes[l].(right := nodes[node].right)];
      var r := nodes[node].right;
      nodes := nodes[r := nodes[r].(left := nodes[node].left)];
      assert nodes == Unsplice(ns, node);
    }

    /** heapLink(y, x) */
    method HeapLink(y: int, x: int)
      requires Valid() && 0 <= y < |nodes| && 0 <= x < |nodes|
      modifies this
      ensures Valid() && Model() == FibHeap.HeapLink(old(Model()), y, x)
    {
      ghost var ns := nodes;
      RemoveFromRootList(y);
      nodes := nodes[y := nodes[y].(parent := x)];
      ghost var ns2 := nodes;
      assert ns2 == Detach(ns, y, x);
      var c := nodes[x].child;
      if c == NIL {
        nodes := nodes[x := nodes[x].(child := y)];
        nodes := nodes[y := nodes[y].(right := y)];
        nodes := nodes[y := nodes[y].(left := y)];
      } else {
        assert NodeIn(ns2[x], |ns2|) && NodeIn(ns2[c], |ns2|);
        nodes := nodes[y := nodes[y].(right := nodes[c].right)];
        nodes := nodes[y := nodes[y].(left := c)];
        var r := nodes[c].right;
        nodes := nodes[r := nodes[r].(left := y)];
        nodes := nodes[c := nodes[c].(right := y)];
        assert nodes == SpliceAfter(ns2, y, c);
      }
      ghost var ns3 := nodes;
      assert ns3 == AdoptChild(ns2, y, x);
      nodes := nodes[x := nodes[x].(degree := nodes[x].degree + 1)];
      nodes := nodes[y := nodes[y].(marked := false)];
      assert nodes == Stamp(ns3, y, x);
    }

    /**
     * The inner while loop of consolidate: while A[degree] holds a node, link
     * the larger-keyed of it and x under the other, clear A[degree] and move
     * up a degree.
     */
    method LinkDegrees(a0: seq<int>, x0: int, degree0: int) returns (a: seq<int>, x: int, degree: int)
      requires Valid() && 0 <= x0 < |nodes| && Slots(a0, |nodes|) && degree0 >= 0
      modifies this
      ensures Valid() && (Model(), a, x, degree) == FibHeap.LinkLoop(old(Model()), a0, x0, degree0)
    {
      a, x, degree := a0, x0, degree0;
      ghost var goal := FibHeap.LinkLoop(Model(), a, x, degree);
      while SlotAt(a, degree) != NIL
        invariant Valid() && 0 <= x < |nodes| && degree >= 0 && Slots(a, |nodes|) && |a| == |a0|
        invariant FibHeap.LinkLoop(Model(), a, x, degree) == goal
        decreases |a| - degree
      {
        a, x, degree := LinkOnce(a, x, degree);
      }
    }

    /** One round of that loop: the larger-keyed of x and A[degree] goes under the other. */
    method LinkOnce(a0: seq<int>, x0: int, degree0: int) returns (a: seq<int>, x: int, degree: int)
      requires Valid() && 0 <= x0 < |nodes| && Slots(a0, |nodes|) && degree0 >= 0 && SlotAt(a0, degree0) != NIL
      modifies this
      ensures Valid() && 0 <= x < |nodes| && Slots(a, |nodes|) && |a| == |a0| && degree == degree0 + 1
      ensures FibHeap.LinkLoop(Model(), a, x, degree) == FibHeap.LinkLoop(old(Model()), a0, x0, degree0)
    {
      ghost var h := Model();
      x, degree := x0, degree0;
      var y := a0[degree];
      if nodes[x].key > nodes[y].key {
        x, y := y, x;
      }
      HeapLink(y, x);
      a := a0[degree := NIL];
      degree := degree + 1;
      LinkLoopStep(h, a0, x0, degree0, Model());
    }

    /**
     * The do-while loop of consolidate from current on: for x = current run
     * the inner loop, put x in A, step right, and stop at a node visited
     * already.
     */
    method WalkRoots(a0: seq<int>, current0: int) returns (a: seq<int>)
      requires Valid() && 0 <= current0 < |nodes| && Slots(a0, |nodes|)
      modifies this
      ensures Valid() && (Model(), a) == Walk(old(Model()), a0, current0, {})
    {
      a := a0;
      var current := current0;
      var visited: set<int> := {};
      ghost var size := |nodes|;
      while true
        invariant Valid() && |nodes| == size && min == old(min) && n == old(n) && operations == old(operations)
        invariant 0 <= current < size && Slots(a, size)
        invariant forall v :: v in visited ==> 0 <= v < size
        invariant Walk(Model(), a, current, visited) == Walk(old(Model()), a0, current0, {})
        decreases size - |visited|
      {
        ghost var h1, a1 := Model(), a;
        assert NodeIn(nodes[current], size);
        var x, degree;
        a, x, degree := LinkDegrees(a, current, nodes[current].degree);
        a := Store(a, degree, x);
        assert (Model(), a) == Visit(h1, a1, current);
        current := nodes[current].right;
        if current in visited {
          break;
        }
        Unvisited(visited, current, size);
        visited := visited + {current};
      }
    }

    /** The end of consolidate: min = null, then min becomes the first node of least key among the slots of A. */
    method ScanSlots(a: seq<int>)
      requires Valid() && Slots(a, |nodes|)
      modifies this
      ensures Valid() && nodes == old(nodes) && Model() == old(Model()).(min := ScanMin(old(nodes), a, 0, NIL))
    {
      min := NIL;
      var i := 0;
      while i < |a|
        invariant 0 <= i <= |a| && (min == NIL || 0 <= min < |nodes|)
        invariant nodes == old(nodes) && n == old(n) && operations == old(operations)
        invariant ScanMin(nodes, a, i, min) == ScanMin(nodes, a, 0, NIL)
      {
        if a[i] != NIL {
          if min == NIL {
            min := a[i];
          } else if nodes[a[i]].key < nodes[min].key {
            min := a[i];
          }
        }
        i := i + 1;
      }
    }

    /** consolidate(), for a heap whose min is set and whose count is at least 1. */
    method Consolidate()
      requires Valid() && 0 <= min < |nodes| && n >= 1
      modifies this
      ensures Valid() && Model() == FibHeap.Consolidate(old(Model()))
    {
      var a := seq(FloorLog2(n) + 2, _ => NIL);
      a := WalkRoots(a, min);
      ScanSlots(a);
    }

    /** The child walk of extractMin is under way at current, with steps more moves allowed, and ends in goal. */
    predicate Walking(z: int, current: int, steps: nat, goal: Heap)
      reads this
    {
      Valid() && min == z && 0 <= z < |nodes| && 0 <= current < |nodes| &&
      ChildWalk(Model(), z, current, steps) == goal
    }

    /**
     * The do-while loop of extractMin over z's children: move each to the
     * root list and clear its parent, until the walk is back at z.child
     * (or, beyond the source, after |nodes| + 1 moves).
     */
    method MoveChildren(z: int)
      requires Valid() && min == z && 0 <= z < |nodes| && nodes[z].child != NIL
      modifies this
      ensures Valid() && Model() == ChildWalk(old(Model()), z, old(nodes[z].child), |old(nodes)|)
    {
      assert NodeIn(nodes[z], |nodes|);
      var current := nodes[z].child;
      var steps: nat := |nodes|;
      ghost var goal := ChildWalk(Model(), z, current, steps);
      while true
        invariant Walking(z, current, steps, goal)
        decreases steps
      {
        var stop;
        current, stop, steps := MoveChild(z, current, steps, goal);
        if stop {
          break;
        }
      }
    }

    /** One pass of that loop, and whether the loop then ends. */
    method MoveChild(z: int, current0: int, steps0: nat, ghost goal: Heap) returns (current: int, stop: bool, steps: nat)
      requires Walking(z, current0, steps0, goal)
      modifies this
      ensures stop ==> Valid() && Model() == goal
      ensures !stop ==> steps < steps0 && Walking(z, current, steps, goal)
    {
      assert NodeIn(nodes[current0], |nodes|);
      var next := nodes[current0].right;
      MoveToRoot(current0);
      current := next;
      stop := current == nodes[z].child || steps0 == 0;
      steps := if stop then steps0 else steps0 - 1;
    }

    /** One pass of that loop: addToRootList(current), then current.parent = null. */
    method MoveToRoot(current: int)
      requires Valid() && min != NIL && 0 <= current < |nodes|
      modifies this
      ensures Valid() && Model() == FibHeap.MoveToRoot(old(Model()), current)
    {
      AddToRootList(current);
      nodes := nodes[current := nodes[current].(parent := NIL)];
    }

    /**
     * extractMin(): the node returned, or thrown when consolidate raises its
     * RangeError (a count below 1), leaving the fields as they then stand.
     */
    method ExtractMin() returns (z: int, thrown: bool)
      requires Valid()
      modifies this
      ensures Valid()
      ensures var e := FibHeap.ExtractMin(old(Model()));
              Model() == e.heap && thrown == e.Thrown? && (e.Returned? ==> z == e.z)
    {
      z := min;
      thrown := false;
      if z != NIL {
        if nodes[z].child != NIL {
          MoveChildren(z);
        }
        RemoveFromRootList(z);
        thrown := Finish(z);
      }
    }

    /** The rest of extractMin once z has left the root list. */
    method Finish(z: int) returns (thrown: bool)
      requires Valid() && 0 <= z < |nodes|
      modifies this
      ensures Valid()
      ensures var e := AfterRemoval(old(Model()), z);
              Model() == e.heap && thrown == e.Thrown?
    {
      thrown := false;
      if z == nodes[z].right {
        min := NIL;
      } else {
        min := nodes[z].right;
        if n < 1 {
          thrown := true;
          return;
        }
        Consolidate();
      }
      n := n - 1;
      operations := operations + [ExtractMinOp(nodes[z].key, n)];
    }

    /** getOperations() */
    method GetOperations() returns (ops: seq<Operation>)
      ensures ops == operations
    {
      ops := operations;
    }
  }
}
