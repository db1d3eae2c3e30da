/**
 * Concrete runs of the heap: each state is written out and each step is a
 * lemma of its own, so that the final statements follow by composition.
 */
module FibHeapScenarios {
  import opened FibHeap

  /** An unmarked node without a value. */
  function N(key: int, degree: int, parent: int, child: int, left: int, right: int): Node
  {
    Node(key, None, degree, false, parent, child, left, right)
  }

  function Root(key: int, self: int): Node
  {
    N(key, 0, NIL, NIL, self, self)
  }

  // insert 1, 2; extractMin

  const P1: Heap := Heap([Root(1, 0)], 0, 1, [InsertOp(1, 1)])
  const P2: Heap := Heap([Node(1, None, 0, false, NIL, NIL, 1, 1), Node(2, None, 0, false, NIL, NIL, 0, 0)],
                              0, 2, [InsertOp(1, 1), InsertOp(2, 2)])
  /** After removeFromRootList(z) and min = z.right. */
  const P3: Heap := Heap([Node(1, None, 0, false, NIL, NIL, 1, 1), Node(2, None, 0, false, NIL, NIL, 1, 1)],
                              1, 2, [InsertOp(1, 1), InsertOp(2, 2)])
  /** After heapLink(node 1, node 1). */
  const P4: Heap := Heap([Node(1, None, 0, false, NIL, NIL, 1, 1), Node(2, None, 1, false, 1, 1, 1, 1)],
                              1, 2, [InsertOp(1, 1), InsertOp(2, 2)])

  lemma P1Step()
    ensures Insert(EmptyHeap(), 1, None) == (P1, 0)
  {
    var e := EmptyHeap();
    assert e.nodes + [Singleton(1, None, 0)] == [Root(1, 0)];
    assert e.operations + [InsertOp(1, 1)] == [InsertOp(1, 1)];
  }

  lemma P2Step()
    ensures Insert(P1, 2, None) == (P2, 1)
  {
    var h1 := P1.(nodes := P1.nodes + [Singleton(2, None, 1)]);
    assert h1.nodes == [Root(1, 0), Root(2, 1)];
    var h3 := AddToRootList(h1, 1);
    assert h3.nodes == P2.nodes;
    assert P1.operations + [InsertOp(2, 2)] == P2.operations;
  }

  lemma P3Step()
    ensures RemoveFromRootList(P2, 0).(min := P2.nodes[0].right) == P3
  { }

  lemma P3FirstVisit()
    ensures Visit(P3, [NIL, NIL, NIL], 1) == (P3, [1, NIL, NIL])
  {
    var a := [NIL, NIL, NIL];
    assert LinkLoop(P3, a, 1, 0) == (P3, a, 1, 0);
    assert Store(a, 0, 1) == [1, NIL, NIL];
  }

  lemma P4Link()
    ensures HeapLink(P3, 1, 1) == P4
  { }

  lemma P4SecondVisit()
    ensures Visit(P3, [1, NIL, NIL], 1) == (P4, [NIL, 1, NIL])
  {
    var a := [1, NIL, NIL];
    P4Link();
    assert a[0 := NIL] == [NIL, NIL, NIL];
    assert LinkLoop(P4, [NIL, NIL, NIL], 1, 1) == (P4, [NIL, NIL, NIL], 1, 1);
    assert LinkLoop(P3, a, 1, 0) == (P4, [NIL, NIL, NIL], 1, 1);
    assert Store([NIL, NIL, NIL], 1, 1) == [NIL, 1, NIL];
  }

  lemma P4Consolidate()
    ensures Consolidate(P3) == P4
  {
    P3FirstVisit();
    P4SecondVisit();
    assert SlotCount(2) == 3;
    assert seq(3, _ => NIL) == [NIL, NIL, NIL];
    assert Walk(P3, [1, NIL, NIL], 1, {1}) == (P4, [NIL, 1, NIL]);
    assert Walk(P3, [NIL, NIL, NIL], 1, {}) == (P4, [NIL, 1, NIL]);
    P4Scan();
  }

  /**
   * insert 1, 2, then extractMin: key 1 comes out, and the remaining root,
   * which consolidate visits twice, is linked under itself: node 2 becomes
   * its own parent and its own child, of degree 1.
   */
  lemma SelfLink()
    ensures var h := Insert(Insert(EmptyHeap(), 1, None).0, 2, None).0;
            var e := ExtractMin(h);
            e.Returned? && e.z == 0 && h.nodes[0].key == 1 && e.heap.min == 1 && e.heap.n == 1 &&
            e.heap.nodes[1].parent == 1 && e.heap.nodes[1].child == 1 && e.heap.nodes[1].degree == 1
  {
    P1Step();
    P2Step();
    P3Step();
    P4Consolidate();
  }

  // insert 5, 2, 8; extractMin three times

  const A1: Heap := Heap([Root(5, 0)], 0, 1, [InsertOp(5, 1)])
  const A2: Heap := Heap([N(5, 0, NIL, NIL, 1, 1), N(2, 0, NIL, NIL, 0, 0)], 1, 2, [InsertOp(5, 1), InsertOp(2, 2)])
  const A3Ops: seq<Operation> := [InsertOp(5, 1), InsertOp(2, 2), InsertOp(8, 3)]
  const A3: Heap := Heap([N(5, 0, NIL, NIL, 2, 1), N(2, 0, NIL, NIL, 0, 2), N(8, 0, NIL, NIL, 1, 0)], 1, 3, A3Ops)
  /** Node 1 removed from the root list, min = node 2. */
  const A4: Heap := Heap([N(5, 0, NIL, NIL, 2, 2), N(2, 0, NIL, NIL, 0, 2), N(8, 0, NIL, NIL, 0, 0)], 2, 3, A3Ops)
  /** heapLink(node 2, node 0). */
  const A5: Heap := Heap([N(5, 1, NIL, 2, 0, 0), N(2, 0, NIL, NIL, 0, 2), N(8, 0, 0, NIL, 2, 2)], 2, 3, A3Ops)
  const A6Ops: seq<Operation> := [InsertOp(5, 1), InsertOp(2, 2), InsertOp(8, 3), ExtractMinOp(2, 2)]
  const A6: Heap := Heap(A5.nodes, 0, 2, A6Ops)
  /** The child walk of the second extraction: node 2 back in the root list. */
  const A7: Heap := Heap([N(5, 1, NIL, 2, 2, 2), N(2, 0, NIL, NIL, 0, 2), N(8, 0, NIL, NIL, 0, 0)], 0, 2, A6Ops)
  /** Node 0 removed from the root list, min = node 2. */
  const A8: Heap := Heap([N(5, 1, NIL, 2, 2, 2), N(2, 0, NIL, NIL, 0, 2), N(8, 0, NIL, NIL, 2, 2)], 2, 2, A6Ops)
  /** heapLink(node 2, node 2). */
  const A9: Heap := Heap([N(5, 1, NIL, 2, 2, 2), N(2, 0, NIL, NIL, 0, 2), N(8, 1, 2, 2, 2, 2)], 2, 2, A6Ops)
  const A10Ops: seq<Operation> := [InsertOp(5, 1), InsertOp(2, 2), InsertOp(8, 3), ExtractMinOp(2, 2), ExtractMinOp(5, 1)]
  const A12Ops: seq<Operation> := [InsertOp(5, 1), InsertOp(2, 2), InsertOp(8, 3), ExtractMinOp(2, 2), ExtractMinOp(5, 1), ExtractMinOp(8, 0)]
  const A10: Heap := Heap(A9.nodes, 2, 1, A10Ops)
  /** The child walk of the third extraction clears the parent of node 2. */
  const A11: Heap := Heap([N(5, 1, NIL, 2, 2, 2), N(2, 0, NIL, NIL, 0, 2), N(8, 1, NIL, 2, 2, 2)], 2, 1, A10Ops)

  lemma A1Step()
    ensures Insert(EmptyHeap(), 5, None) == (A1, 0)
  {
    var e := EmptyHeap();
    assert e.nodes + [Singleton(5, None, 0)] == [Root(5, 0)];
    assert e.operations + [InsertOp(5, 1)] == [InsertOp(5, 1)];
  }

  lemma A2Step()
    ensures Insert(A1, 2, None) == (A2, 1)
  {
    var h1 := A1.(nodes := A1.nodes + [Singleton(2, None, 1)]);
    assert h1.nodes == [Root(5, 0), Root(2, 1)];
    assert AddToRootList(h1, 1).nodes == A2.nodes;
    assert A1.operations + [InsertOp(2, 2)] == A2.operations;
  }

  lemma A3Step()
    ensures Insert(A2, 8, None) == (A3, 2)
  {
    var h1 := A2.(nodes := A2.nodes + [Singleton(8, None, 2)]);
    assert h1.nodes == A2.nodes + [Root(8, 2)];
    assert AddToRootList(h1, 2).nodes == A3.nodes;
    assert A2.operations + [InsertOp(8, 3)] == A3Ops;
  }

  lemma A4Step()
    ensures RemoveFromRootList(A3, 1).(min := A3.nodes[1].right) == A4
  { }

  lemma A5Link()
    ensures HeapLink(A4, 2, 0) == A5
  { }

  lemma A5Walk()
    ensures Walk(A4, [NIL, NIL, NIL], 2, {}) == (A5, [NIL, 0, NIL])
  {
    var a := [NIL, NIL, NIL];
    assert LinkLoop(A4, a, 2, 0) == (A4, a, 2, 0);
    assert Store(a, 0, 2) == [2, NIL, NIL];
    assert Visit(A4, a, 2) == (A4, [2, NIL, NIL]);
    A5Link();
    assert [2, NIL, NIL][0 := NIL] == a;
    assert LinkLoop(A5, a, 0, 1) == (A5, a, 0, 1);
    assert LinkLoop(A4, [2, NIL, NIL], 0, 0) == (A5, a, 0, 1);
    assert Store(a, 1, 0) == [NIL, 0, NIL];
    assert Visit(A4, [2, NIL, NIL], 0) == (A5, [NIL, 0, NIL]);
    assert Walk(A4, [2, NIL, NIL], 0, {0}) == (A5, [NIL, 0, NIL]);
  }

  lemma A6Step()
    ensures ExtractMin(A3) == Returned(A6, 1)
  {
    A6Tail();
  }

  lemma A6Tail()
    ensures AfterRemoval(RemoveFromRootList(A3, 1), 1) == Returned(A6, 1)
  {
    A4Step();
    A5Walk();
    assert SlotCount(3) == 3;
    assert seq(3, _ => NIL) == [NIL, NIL, NIL];
    A5Scan();
    assert Consolidate(A4) == A5.(min := 0);
    assert A3Ops + [ExtractMinOp(2, 2)] == A6Ops;
  }

  lemma A7Step()
    ensures ChildWalk(A6, 0, 2, 3) == A7
  { }

  lemma A8Step()
    ensures RemoveFromRootList(A7, 0).(min := A7.nodes[0].right) == A8
  { }

  lemma A9Link()
    ensures HeapLink(A8, 2, 2) == A9
  { }

  lemma A9Walk()
    ensures Walk(A8, [NIL, NIL, NIL], 2, {}) == (A9, [NIL, 2, NIL])
  {
    var a := [NIL, NIL, NIL];
    assert LinkLoop(A8, a, 2, 0) == (A8, a, 2, 0);
    assert Store(a, 0, 2) == [2, NIL, NIL];
    assert Visit(A8, a, 2) == (A8, [2, NIL, NIL]);
    A9Link();
    assert [2, NIL, NIL][0 := NIL] == a;
    assert LinkLoop(A9, a, 2, 1) == (A9, a, 2, 1);
    assert LinkLoop(A8, [2, NIL, NIL], 2, 0) == (A9, a, 2, 1);
    assert Store(a, 1, 2) == [NIL, 2, NIL];
    assert Visit(A8, [2, NIL, NIL], 2) == (A9, [NIL, 2, NIL]);
    assert Walk(A8, [2, NIL, NIL], 2, {2}) == (A9, [NIL, 2, NIL]);
  }

  lemma A10Step()
    ensures ExtractMin(A6) == Returned(A10, 0)
  {
    A7Step();
    A10Tail();
  }

  lemma A10Tail()
    ensures AfterRemoval(RemoveFromRootList(A7, 0), 0) == Returned(A10, 0)
  {
    A8Step();
    A9Walk();
    assert SlotCount(2) == 3;
    assert seq(3, _ => NIL) == [NIL, NIL, NIL];
    A9Scan();
    assert Consolidate(A8) == A9;
    assert A6Ops + [ExtractMinOp(5, 1)] == A10Ops;
  }

  lemma A11Step()
    ensures ChildWalk(A10, 2, 2, 3) == A11
  { }

  lemma A12Step()
    ensures ExtractMin(A10) == Returned(Heap(A11.nodes, NIL, 0, A12Ops), 2)
  {
    A11Step();
    assert RemoveFromRootList(A11, 2) == A11;
    assert A10Ops + [ExtractMinOp(8, 0)] == A12Ops;
  }

  /**
   * insert 5, 2, 8, then extractMin three times: the keys come out as 2, 5
   * and 8, the count falls back to 0 and min to null, and the log holds the
   * six operations with their running totals.
   */
  lemma DrainInOrder()
    ensures var h := Insert(Insert(Insert(EmptyHeap(), 5, None).0, 2, None).0, 8, None).0;
            var e1 := ExtractMin(h);
            e1.Returned? && e1.z == 1 && h.nodes[1].key == 2 &&
            var e2 := ExtractMin(e1.heap);
            e2.Returned? && e2.z == 0 && h.nodes[0].key == 5 &&
            var e3 := ExtractMin(e2.heap);
            e3.Returned? && e3.z == 2 && h.nodes[2].key == 8 &&
            e3.heap.n == 0 && e3.heap.min == NIL &&
            e3.heap.operations == A12Ops
  {
    A1Step();
    A2Step();
    A3Step();
    A6Step();
    A10Step();
    A12Step();
  }

  // insert 1, 2, 9, 5; extractMin twice

  const B1: Heap := Heap([Root(1, 0)], 0, 1, [InsertOp(1, 1)])
  const B2: Heap := Heap([N(1, 0, NIL, NIL, 1, 1), N(2, 0, NIL, NIL, 0, 0)], 0, 2, [InsertOp(1, 1), InsertOp(2, 2)])
  const B3: Heap := Heap([N(1, 0, NIL, NIL, 1, 2), N(2, 0, NIL, NIL, 2, 0), N(9, 0, NIL, NIL, 0, 1)],
                              0, 3, [InsertOp(1, 1), InsertOp(2, 2), InsertOp(9, 3)])
  const B4Ops: seq<Operation> := [InsertOp(1, 1), InsertOp(2, 2), InsertOp(9, 3), InsertOp(5, 4)]
  const B4: Heap := Heap([N(1, 0, NIL, NIL, 1, 3), N(2, 0, NIL, NIL, 2, 0), N(9, 0, NIL, NIL, 3, 1), N(5, 0, NIL, NIL, 0, 2)],
                              0, 4, B4Ops)
  /** Node 0 removed from the root list 0, 3, 2, 1; min = node 3. */
  const B5: Heap := Heap([N(1, 0, NIL, NIL, 1, 3), N(2, 0, NIL, NIL, 2, 3), N(9, 0, NIL, NIL, 3, 1), N(5, 0, NIL, NIL, 1, 2)],
                              3, 4, B4Ops)
  /** heapLink(node 2, node 3): the walk then steps into the child ring of node 3 and stops. */
  const B6: Heap := Heap([N(1, 0, NIL, NIL, 1, 3), N(2, 0, NIL, NIL, 3, 3), N(9, 0, 3, NIL, 2, 2), N(5, 1, NIL, 2, 1, 1)],
                              3, 4, B4Ops)
  const B7Ops: seq<Operation> := [InsertOp(1, 1), InsertOp(2, 2), InsertOp(9, 3), InsertOp(5, 4), ExtractMinOp(1, 3)]
  const B7: Heap := Heap(B6.nodes, 3, 3, B7Ops)
  /** The child walk of the second extraction: node 2 back in the root list. */
  const B8: Heap := Heap([N(1, 0, NIL, NIL, 1, 3), N(2, 0, NIL, NIL, 2, 3), N(9, 0, NIL, NIL, 3, 1), N(5, 1, NIL, 2, 1, 2)],
                              3, 3, B7Ops)
  /** Node 3 removed from the root list; min = node 2. */
  const B9: Heap := Heap([N(1, 0, NIL, NIL, 1, 3), N(2, 0, NIL, NIL, 2, 2), N(9, 0, NIL, NIL, 1, 1), N(5, 1, NIL, 2, 1, 2)],
                              2, 3, B7Ops)
  /** heapLink(node 2, node 1). */
  const B10: Heap := Heap([N(1, 0, NIL, NIL, 1, 3), N(2, 1, NIL, 2, 1, 1), N(9, 0, 1, NIL, 2, 2), N(5, 1, NIL, 2, 1, 2)],
                               2, 3, B7Ops)
  const B11Ops: seq<Operation> := [InsertOp(1, 1), InsertOp(2, 2), InsertOp(9, 3), InsertOp(5, 4), ExtractMinOp(1, 3), ExtractMinOp(5, 2)]
  const B11: Heap := Heap(B10.nodes, 1, 2, B11Ops)

  lemma B1Step()
    ensures Insert(EmptyHeap(), 1, None) == (B1, 0)
  {
    var e := EmptyHeap();
    assert e.nodes + [Singleton(1, None, 0)] == [Root(1, 0)];
    assert e.operations + [InsertOp(1, 1)] == [InsertOp(1, 1)];
  }

  lemma B2Step()
    ensures Insert(B1, 2, None) == (B2, 1)
  {
    var h1 := B1.(nodes := B1.nodes + [Singleton(2, None, 1)]);
    assert h1.nodes == [Root(1, 0), Root(2, 1)];
    assert AddToRootList(h1, 1).nodes == B2.nodes;
    assert B1.operations + [InsertOp(2, 2)] == B2.operations;
  }

  lemma B3Step()
    ensures Insert(B2, 9, None) == (B3, 2)
  {
    var h1 := B2.(nodes := B2.nodes + [Singleton(9, None, 2)]);
    assert h1.nodes == B2.nodes + [Root(9, 2)];
    assert AddToRootList(h1, 2).nodes == B3.nodes;
    assert B2.operations + [InsertOp(9, 3)] == B3.operations;
  }

  lemma B4Step()
    ensures Insert(B3, 5, None) == (B4, 3)
  {
    var h1 := B3.(nodes := B3.nodes + [Singleton(5, None, 3)]);
    assert h1.nodes == B3.nodes + [Root(5, 3)];
    assert AddToRootList(h1, 3).nodes == B4.nodes;
    assert B3.operations + [InsertOp(5, 4)] == B4Ops;
  }

  lemma B5Step()
    ensures RemoveFromRootList(B4, 0).(min := B4.nodes[0].right) == B5
  { }

  lemma B6Link()
    ensures HeapLink(B5, 2, 3) == B6
  { }

  lemma B6Walk()
    ensures Walk(B5, [NIL, NIL, NIL, NIL], 3, {}) == (B6, [NIL, 3, NIL, NIL])
  {
    var a := [NIL, NIL, NIL, NIL];
    assert LinkLoop(B5, a, 3, 0) == (B5, a, 3, 0);
    assert Store(a, 0, 3) == [3, NIL, NIL, NIL];
    assert Visit(B5, a, 3) == (B5, [3, NIL, NIL, NIL]);
    B6Link();
    assert [3, NIL, NIL, NIL][0 := NIL] == a;
    assert LinkLoop(B6, a, 3, 1) == (B6, a, 3, 1);
    assert LinkLoop(B5, [3, NIL, NIL, NIL], 2, 0) == (B6, a, 3, 1);
    assert Store(a, 1, 3) == [NIL, 3, NIL, NIL];
    assert Visit(B5, [3, NIL, NIL, NIL], 2) == (B6, [NIL, 3, NIL, NIL]);
    assert Walk(B5, [3, NIL, NIL, NIL], 2, {2}) == (B6, [NIL, 3, NIL, NIL]);
  }

  lemma B7Step()
    ensures ExtractMin(B4) == Returned(B7, 0)
  {
    B7Tail();
  }

  lemma B7Tail()
    ensures AfterRemoval(RemoveFromRootList(B4, 0), 0) == Returned(B7, 0)
  {
    B5Step();
    B6Walk();
    assert FloorLog2(4) == 2;
    assert seq(4, _ => NIL) == [NIL, NIL, NIL, NIL];
    B6Scan();
    assert Consolidate(B5) == B6;
    assert B4Ops + [ExtractMinOp(1, 3)] == B7Ops;
  }

  lemma B8Step()
    ensures ChildWalk(B7, 3, 2, 4) == B8
  { }

  lemma B9Step()
    ensures RemoveFromRootList(B8, 3).(min := B8.nodes[3].right) == B9
  { }

  lemma B10Link()
    ensures HeapLink(B9, 2, 1) == B10
  { }

  lemma B10Walk()
    ensures Walk(B9, [NIL, NIL, NIL], 2, {}) == (B10, [NIL, 1, NIL])
  {
    var a := [NIL, NIL, NIL];
    assert LinkLoop(B9, a, 2, 0) == (B9, a, 2, 0);
    assert Store(a, 0, 2) == [2, NIL, NIL];
    assert Visit(B9, a, 2) == (B9, [2, NIL, NIL]);
    B10Link();
    assert [2, NIL, NIL][0 := NIL] == a;
    assert LinkLoop(B10, a, 1, 1) == (B10, a, 1, 1);
    assert LinkLoop(B9, [2, NIL, NIL], 1, 0) == (B10, a, 1, 1);
    assert Store(a, 1, 1) == [NIL, 1, NIL];
    assert Visit(B9, [2, NIL, NIL], 1) == (B10, [NIL, 1, NIL]);
    assert Walk(B9, [2, NIL, NIL], 1, {1}) == (B10, [NIL, 1, NIL]);
  }

  lemma B11Step()
    ensures ExtractMin(B7) == Returned(B11, 3)
  {
    B8Step();
    B11Tail();
  }

  lemma B11Tail()
    ensures AfterRemoval(RemoveFromRootList(B8, 3), 3) == Returned(B11, 3)
  {
    B9Step();
    B10Walk();
    assert SlotCount(3) == 3;
    assert seq(3, _ => NIL) == [NIL, NIL, NIL];
    B10Scan();
    assert Consolidate(B9) == B10.(min := 1);
    assert B7Ops + [ExtractMinOp(5, 2)] == B11Ops;
  }

  /**
   * insert 1, 2, 9, 5, then extractMin twice: the first call returns key 1,
   * but its consolidate links node 2 (key 9) under node 3 (key 5), follows
   * node 2's right pointer into that child ring and stops, so node 1 (key 2)
   * never enters A and min becomes node 3.  The second call returns key 5
   * while key 2 is still in the heap, and only then becomes min.
   */
  lemma ExtractSkipsRoot()
    ensures var h := Insert(Insert(Insert(Insert(EmptyHeap(), 1, None).0, 2, None).0, 9, None).0, 5, None).0;
            var e1 := ExtractMin(h);
            e1.Returned? && e1.z == 0 && h.nodes[0].key == 1 && e1.heap.min == 3 &&
            var e2 := ExtractMin(e1.heap);
            e2.Returned? && e2.z == 3 && h.nodes[3].key == 5 &&
            e2.heap.min == 1 && e2.heap.nodes[1].key == 2 && e2.heap.n == 2
  {
    B1Step();
    B2Step();
    B3Step();
    B4Step();
    B7Step();
    B11Step();
  }

  lemma P4Scan()
    ensures ScanMin(P4.nodes, [NIL, 1, NIL], 0, NIL) == 1
  {
    assert ScanMin(P4.nodes, [NIL, 1, NIL], 2, 1) == 1;
    assert ScanMin(P4.nodes, [NIL, 1, NIL], 1, 1) == 1;
  }

  lemma A5Scan()
    ensures ScanMin(A5.nodes, [NIL, 0, NIL], 0, NIL) == 0
  {
    assert ScanMin(A5.nodes, [NIL, 0, NIL], 2, 0) == 0;
    assert ScanMin(A5.nodes, [NIL, 0, NIL], 1, 0) == 0;
  }

  lemma A9Scan()
    ensures ScanMin(A9.nodes, [NIL, 2, NIL], 0, NIL) == 2
  {
    assert ScanMin(A9.nodes, [NIL, 2, NIL], 2, 2) == 2;
    assert ScanMin(A9.nodes, [NIL, 2, NIL], 1, 2) == 2;
  }

  lemma B6Scan()
    ensures ScanMin(B6.nodes, [NIL, 3, NIL, NIL], 0, NIL) == 3
  {
    assert ScanMin(B6.nodes, [NIL, 3, NIL, NIL], 3, 3) == 3;
    assert ScanMin(B6.nodes, [NIL, 3, NIL, NIL], 2, 3) == 3;
    assert ScanMin(B6.nodes, [NIL, 3, NIL, NIL], 1, 3) == 3;
  }

  lemma B10Scan()
    ensures ScanMin(B10.nodes, [NIL, 1, NIL], 0, NIL) == 1
  {
    assert ScanMin(B10.nodes, [NIL, 1, NIL], 2, 1) == 1;
    assert ScanMin(B10.nodes, [NIL, 1, NIL], 1, 1) == 1;
  }
}
