/**
 * A corrected consolidate for the heap of src/utils/fibonacciAlgorithms.js.
 *
 * consolidate as written walks the root list while it relinks it.  Its start
 * root is never marked visited, so the walk can meet it a second time and
 * link it under itself (FibHeapScenarios.SelfLink).  After a heapLink the
 * walk follows the right pointer of a node that now sits in a child ring, so
 * the roots beyond it never reach A (FibHeapScenarios.ExtractSkipsRoot).
 *
 * The version here first copies the root ring into a list and then runs the
 * same inner loop and the same store into A for each listed root in turn;
 * the slot array, the inner loop, the final scan and the rest of extractMin
 * are those of module FibHeap.
 */
module FibHeapFixed {
  import opened FibHeap
  import FibHeapScenarios

  /**
   * The root ring from current on: current, then its right neighbour and so
   * on, stopping before start comes round again, and after at most fuel nodes.
   */
  function RootList(ns: seq<Node>, start: int, current: int, fuel: nat): (r: seq<int>)
    requires Closed(ns) && 0 <= start < |ns| && 0 <= current < |ns|
    ensures forall i :: 0 <= i < |r| ==> 0 <= r[i] < |ns|
    ensures fuel > 0 ==> r != [] && r[0] == current
    decreases fuel
  {
    if fuel == 0 then []
    else
      assert NodeIn(ns[current], |ns|);
      var next := ns[current].right;
      [current] + (if next == start then [] else RootList(ns, start, next, fuel - 1))
  }

  /** The inner loop of consolidate and the store into A, for each listed root from position i on. */
  function LinkRoots(h: Heap, a: seq<int>, roots: seq<int>, i: nat): (r: (Heap, seq<int>))
    requires Arena(h) && Slots(a, |h.nodes|) && forall j :: 0 <= j < |roots| ==> 0 <= roots[j] < |h.nodes|
    ensures Arena(r.0) && |r.0.nodes| == |h.nodes| && r.0.min == h.min && r.0.n == h.n && r.0.operations == h.operations
    ensures Slots(r.1, |h.nodes|)
    decreases |roots| - i
  {
    if i >= |roots| then (h, a)
    else
      var v := Visit(h, a, roots[i]);
      LinkRoots(v.0, v.1, roots, i + 1)
  }

  /** consolidate with the root list copied before any link is made. */
  function ConsolidateFixed(h: Heap): (r: Heap)
    requires Arena(h) && Index(h, h.min) && h.n >= 1
    ensures Arena(r) && |r.nodes| == |h.nodes| && r.n == h.n && r.operations == h.operations
  {
    var roots := RootList(h.nodes, h.min, h.min, |h.nodes|);
    var w := LinkRoots(h, seq(SlotCount(h.n), _ => NIL), roots, 0);
    w.0.(min := ScanMin(w.0.nodes, w.1, 0, NIL))
  }

  /** extractMin over the corrected consolidate; everything else is as written. */
  function ExtractMinFixed(h: Heap): (r: Extracted)
    requires Arena(h)
    ensures Arena(r.heap) && |r.heap.nodes| == |h.nodes|
    ensures r.Returned? ==> r.z == h.min
    ensures h.n >= 1 ==> r.Returned?
    ensures r.Returned? && h.min != NIL ==> r.heap.n == h.n - 1
  {
    if h.min == NIL then Returned(h, NIL)
    else
      var z := h.min;
      var h1 := if h.nodes[z].child != NIL then ChildWalk(h, z, h.nodes[z].child, |h.nodes|) else h;
      AfterRemovalFixed(RemoveFromRootList(h1, z), z)
  }

  /** AfterRemoval over the corrected consolidate. */
  function AfterRemovalFixed(h2: Heap, z: int): (r: Extracted)
    requires Arena(h2) && Index(h2, z)
    ensures Arena(r.heap) && |r.heap.nodes| == |h2.nodes|
    ensures r.Returned? ==> r.z == z
    ensures h2.n >= 1 ==> r.Returned?
    ensures r.Returned? ==> r.heap.n == h2.n - 1
  {
    if h2.nodes[z].right == z then
      Returned(Logged(h2.(min := NIL), h2.nodes[z].key), z)
    else
      var h3 := h2.(min := h2.nodes[z].right);
      if h3.n < 1 then Thrown(h3)
      else
        var h4 := ConsolidateFixed(h3);
        Returned(Logged(h4, h4.nodes[z].key), z)
  }

  // ---------------------------------------------------------------------
  // The least root reaches min
  // ---------------------------------------------------------------------

  /** Some filled slot of A, or else the carried node x, has a key at most p's (keys read in ks). */
  predicate Covered(ks: seq<Node>, a: seq<int>, x: int, p: int)
    requires Slots(a, |ks|) && 0 <= p < |ks| && (x == NIL || 0 <= x < |ks|)
  {
    (exists k :: 0 <= k < |a| && a[k] != NIL && ks[a[k]].key <= ks[p].key) ||
    (x != NIL && ks[x].key <= ks[p].key)
  }

  /** Every filled slot of A holds one of the given roots. */
  predicate SlotsIn(a: seq<int>, roots: set<int>)
  {
    forall k :: 0 <= k < |a| && a[k] != NIL ==> a[k] in roots
  }

  /**
   * The inner loop loses no bound: a node whose key some slot or x bounded
   * is still bounded by a slot or by the x the loop stops with, since each
   * link keeps the smaller of the two keys it takes out.
   */
  lemma {:induction false} LinkLoopCovers(h0: Heap, h: Heap, a: seq<int>, x: int, degree: int, p: int)
    requires Arena(h) && Index(h, x) && Slots(a, |h.nodes|) && degree >= 0 && SameKeys(h0, h)
    requires 0 <= p < |h0.nodes| && Covered(h0.nodes, a, x, p)
    ensures var l := LinkLoop(h, a, x, degree); Covered(h0.nodes, l.1, l.2, p)
    decreases |a| - degree
  {
    if SlotAt(a, degree) != NIL {
      var y0 := a[degree];
      var swap := h.nodes[x].key > h.nodes[y0].key;
      var x1 := if swap then y0 else x;
      var y1 := if swap then x else y0;
      var h1 := HeapLink(h, y1, x1);
      HeapLinkKeys(h, y1, x1);
      SameKeysTrans(h0, h, h1);
      var a1 := a[degree := NIL];
      assert Covered(h0.nodes, a1, x1, p) by {
        if k :| 0 <= k < |a| && a[k] != NIL && h0.nodes[a[k]].key <= h0.nodes[p].key {
          if k != degree {
            assert a1[k] == a[k];
          }
        }
      }
      LinkLoopCovers(h0, h1, a1, x1, degree + 1, p);
      LinkLoopStep(h, a, x, degree, h1);
    }
  }

  /** After one root's pass, a node bounded by A or by that root is bounded by A. */
  lemma VisitCovers(h0: Heap, h: Heap, a: seq<int>, current: int, p: int)
    requires Arena(h) && Index(h, current) && Slots(a, |h.nodes|) && SameKeys(h0, h)
    requires 0 <= p < |h0.nodes| && Covered(h0.nodes, a, current, p)
    ensures Covered(h0.nodes, Visit(h, a, current).1, NIL, p)
  {
    assert NodeIn(h.nodes[current], |h.nodes|);
    var l := LinkLoop(h, a, current, h.nodes[current].degree);
    LinkLoopCovers(h0, h, a, current, h.nodes[current].degree, p);
    var a1 := Store(l.1, l.3, l.2);
    if k :| 0 <= k < |l.1| && l.1[k] != NIL && h0.nodes[l.1[k]].key <= h0.nodes[p].key {
      assert a1[k] == l.1[k];
    } else {
      assert a1[l.3] == l.2;
    }
  }

  /** One root's pass keeps A's slots among the given roots. */
  lemma VisitMembers(h: Heap, a: seq<int>, current: int, roots: set<int>)
    requires Arena(h) && Index(h, current) && Slots(a, |h.nodes|)
    requires SlotsIn(a, roots) && current in roots
    ensures SlotsIn(Visit(h, a, current).1, roots)
  {
    assert NodeIn(h.nodes[current], |h.nodes|);
    var l := LinkLoop(h, a, current, h.nodes[current].degree);
    var a1 := Store(l.1, l.3, l.2);
    forall k | 0 <= k < |a1| && a1[k] != NIL
      ensures a1[k] in roots
    {
      if k != l.3 {
        assert a1[k] == SlotAt(l.1, k);
      } else if l.2 != current {
        var j :| 0 <= j < |a| && a[j] == l.2;
      }
    }
  }

  /** Passing the listed roots changes no key or value. */
  lemma {:induction false} LinkRootsKeys(h: Heap, a: seq<int>, roots: seq<int>, i: nat)
    requires Arena(h) && Slots(a, |h.nodes|) && forall j :: 0 <= j < |roots| ==> 0 <= roots[j] < |h.nodes|
    ensures SameKeys(h, LinkRoots(h, a, roots, i).0)
    decreases |roots| - i
  {
    if i < |roots| {
      assert NodeIn(h.nodes[roots[i]], |h.nodes|);
      LinkLoopKeys(h, a, roots[i], h.nodes[roots[i]].degree);
      var v := Visit(h, a, roots[i]);
      LinkRootsKeys(v.0, v.1, roots, i + 1);
      SameKeysTrans(h, v.0, LinkRoots(h, a, roots, i).0);
    }
  }

  /** A node A bounds stays bounded by A while the listed roots from position i on are passed. */
  lemma {:induction false} LinkRootsKeepCover(h0: Heap, h: Heap, a: seq<int>, roots: seq<int>, i: nat, p: int)
    requires Arena(h) && Slots(a, |h.nodes|) && (forall j :: 0 <= j < |roots| ==> 0 <= roots[j] < |h.nodes|) && SameKeys(h0, h)
    requires 0 <= p < |h0.nodes| && Covered(h0.nodes, a, NIL, p)
    ensures Covered(h0.nodes, LinkRoots(h, a, roots, i).1, NIL, p)
    decreases |roots| - i
  {
    if i < |roots| {
      assert NodeIn(h.nodes[roots[i]], |h.nodes|);
      LinkLoopKeys(h, a, roots[i], h.nodes[roots[i]].degree);
      var v := Visit(h, a, roots[i]);
      SameKeysTrans(h0, h, v.0);
      VisitCovers(h0, h, a, roots[i], p);
      LinkRootsKeepCover(h0, v.0, v.1, roots, i + 1, p);
    }
  }

  /** The root listed at position j is bounded by A once the roots from position i up to j are passed. */
  lemma {:induction false} LinkRootsCoverRoot(h0: Heap, h: Heap, a: seq<int>, roots: seq<int>, i: nat, j: nat)
    requires Arena(h) && Slots(a, |h.nodes|) && (forall k :: 0 <= k < |roots| ==> 0 <= roots[k] < |h.nodes|) && SameKeys(h0, h)
    requires i <= j < |roots|
    ensures Covered(h0.nodes, LinkRoots(h, a, roots, i).1, NIL, roots[j])
    decreases j - i
  {
    assert NodeIn(h.nodes[roots[i]], |h.nodes|);
    LinkLoopKeys(h, a, roots[i], h.nodes[roots[i]].degree);
    var v := Visit(h, a, roots[i]);
    SameKeysTrans(h0, h, v.0);
    assert LinkRoots(h, a, roots, i) == LinkRoots(v.0, v.1, roots, i + 1);
    if i == j {
      assert Covered(h0.nodes, a, roots[i], roots[i]);
      VisitCovers(h0, h, a, roots[i], roots[i]);
      LinkRootsKeepCover(h0, v.0, v.1, roots, i + 1, roots[i]);
    } else {
      LinkRootsCoverRoot(h0, v.0, v.1, roots, i + 1, j);
    }
  }

  /** Passing the listed roots keeps A's slots among them. */
  lemma {:induction false} LinkRootsMembers(h: Heap, a: seq<int>, roots: seq<int>, i: nat, rs: set<int>)
    requires Arena(h) && Slots(a, |h.nodes|) && forall j :: 0 <= j < |roots| ==> 0 <= roots[j] < |h.nodes|
    requires (forall j :: 0 <= j < |roots| ==> roots[j] in rs) && SlotsIn(a, rs)
    ensures SlotsIn(LinkRoots(h, a, roots, i).1, rs)
    decreases |roots| - i
  {
    if i < |roots| {
      VisitMembers(h, a, roots[i], rs);
      var v := Visit(h, a, roots[i]);
      LinkRootsMembers(v.0, v.1, roots, i + 1, rs);
    }
  }

  /**
   * The corrected consolidate changes no key, and sets min to a root of the
   * root list it copied whose key is at most every listed root's.
   */
  lemma ConsolidateFixedLeast(h: Heap)
    requires Arena(h) && Index(h, h.min) && h.n >= 1
    ensures var r := ConsolidateFixed(h);
            var roots := RootList(h.nodes, h.min, h.min, |h.nodes|);
            SameKeys(h, r) && r.min != NIL && r.min in roots &&
            forall p :: p in roots ==> r.nodes[r.min].key <= r.nodes[p].key
  {
    var roots := RootList(h.nodes, h.min, h.min, |h.nodes|);
    var a0 := seq(SlotCount(h.n), _ => NIL);
    var w := LinkRoots(h, a0, roots, 0);
    var m := ScanMin(w.0.nodes, w.1, 0, NIL);
    LinkRootsKeys(h, a0, roots, 0);
    var rs := set p | p in roots;
    assert SlotsIn(w.1, rs) by {
      LinkRootsMembers(h, a0, roots, 0, rs);
    }
    ScanMinLeast(w.0.nodes, w.1, 0, NIL);
    assert m != NIL by {
      LinkRootsCoverRoot(h, h, a0, roots, 0, 0);
    }
    forall p | p in roots
      ensures w.0.nodes[m].key <= w.0.nodes[p].key
    {
      var j :| 0 <= j < |roots| && roots[j] == p;
      LinkRootsCoverRoot(h, h, a0, roots, 0, j);
      var k :| 0 <= k < |w.1| && w.1[k] != NIL && h.nodes[w.1[k]].key <= h.nodes[p].key;
      assert w.0.nodes[m].key <= w.0.nodes[w.1[k]].key;
    }
  }

  /**
   * Once z has left a root list of more than one node, the corrected
   * extraction returns z, keeps every key, and leaves min at a root of the
   * remaining list, from z's right neighbour round, of least key among them.
   */
  lemma AfterRemovalFixedLeast(h2: Heap, z: int)
    requires Arena(h2) && Index(h2, z) && h2.n >= 1 && h2.nodes[z].right != z
    ensures var r := AfterRemovalFixed(h2, z);
            var start := h2.nodes[z].right;
            var roots := RootList(h2.nodes, start, start, |h2.nodes|);
            r.Returned? && r.z == z && SameKeys(h2, r.heap) && r.heap.min != NIL && r.heap.min in roots &&
            forall p :: p in roots ==> r.heap.nodes[r.heap.min].key <= r.heap.nodes[p].key
  {
    assert NodeIn(h2.nodes[z], |h2.nodes|);
    ConsolidateFixedLeast(h2.(min := h2.nodes[z].right));
  }

  // ---------------------------------------------------------------------
  // The runs that go wrong as written
  // ---------------------------------------------------------------------

  /**
   * insert 1, 2, then the corrected extractMin: key 1 comes out and node 2
   * stays a lone root, with no parent, no child and degree 0.
   */
  lemma FixedNoSelfLink()
    ensures var h := Insert(Insert(EmptyHeap(), 1, None).0, 2, None).0;
            var e := ExtractMinFixed(h);
            e.Returned? && e.z == 0 && h.nodes[0].key == 1 && e.heap.min == 1 && e.heap.n == 1 &&
            e.heap.nodes[1].parent == NIL && e.heap.nodes[1].child == NIL && e.heap.nodes[1].degree == 0
  {
    FibHeapScenarios.P1Step();
    FibHeapScenarios.P2Step();
    FibHeapScenarios.P3Step();
    var p3 := FibHeapScenarios.P3;
    assert RootList(p3.nodes, 1, 1, 2) == [1];
    FibHeapScenarios.P3FirstVisit();
    assert LinkRoots(p3, [NIL, NIL, NIL], [1], 0) == (p3, [1, NIL, NIL]);
    assert ScanMin(p3.nodes, [1, NIL, NIL], 2, 1) == 1;
    assert ScanMin(p3.nodes, [1, NIL, NIL], 1, 1) == 1;
    assert SlotCount(2) == 3;
    assert seq(3, _ => NIL) == [NIL, NIL, NIL];
    assert ConsolidateFixed(p3) == p3;
  }

  /**
   * insert 1, 2, 9, 5, then the corrected extractMin twice: the keys come out
   * as 1, then 2.
   */
  lemma FixedExtractsInOrder()
    ensures var h := Insert(Insert(Insert(Insert(EmptyHeap(), 1, None).0, 2, None).0, 9, None).0, 5, None).0;
            var e1 := ExtractMinFixed(h);
            e1.Returned? && e1.z == 0 && h.nodes[0].key == 1 &&
            var e2 := ExtractMinFixed(e1.heap);
            e2.Returned? && e2.z == 1 && h.nodes[1].key == 2
  {
    FibHeapScenarios.B1Step();
    FibHeapScenarios.B2Step();
    FibHeapScenarios.B3Step();
    FibHeapScenarios.B4Step();
    FibHeapScenarios.B5Step();
    var b4 := FibHeapScenarios.B4;
    var h2 := RemoveFromRootList(b4, 0);
    assert h2.nodes == FibHeapScenarios.B5.nodes;
    assert RootList(h2.nodes, 3, 3, 4) == [3, 2, 1] by {
      assert RootList(h2.nodes, 3, 1, 2) == [1];
      assert RootList(h2.nodes, 3, 2, 3) == [2, 1];
    }
    AfterRemovalFixedLeast(h2, 0);
    var e1 := ExtractMinFixed(b4);
    assert e1 == AfterRemovalFixed(h2, 0);
    var m := e1.heap.min;
    assert m == 1 by {
      assert e1.heap.nodes[m].key <= e1.heap.nodes[1].key;
    }
  }
}
