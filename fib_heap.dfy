/**
 * The demonstration priority queue of src/utils/fibonacciAlgorithms.js.
 *
 * The nodes of the heap live in an arena: node i is entry i of `nodes`, and
 * its parent, child, left and right fields hold arena indices, NIL (-1)
 * standing for JavaScript's null.  A node object handed back to the caller is
 * its index.  The functions below are the heap's operations on a value of the
 * whole heap, statement by statement in the order the source runs them, so
 * that aliasing between the nodes they touch is modelled exactly; the class
 * FibonacciHeap of module FibHeapInPlace performs the same steps in place.
 */
module FibHeap {
  import opened FibMath

  datatype Option<T> = None | Some(value: T)

  /** JavaScript's null, for a node reference. */
  const NIL: int := -1

  datatype Node = Node(key: int, value: Option<string>, degree: int, marked: bool,
                          parent: int, child: int, left: int, right: int)

  /** One entry of the operation log (its description text is left out). */
  datatype Operation = InsertOp(key: int, totalNodes: int) | ExtractMinOp(extractedKey: int, totalNodes: int)

  datatype Heap = Heap(nodes: seq<Node>, min: int, n: int, operations: seq<Operation>)

  // ---------------------------------------------------------------------
  // The arena
  // ---------------------------------------------------------------------

  /** Every pointer of a node names a node of an arena of the given size, or is null where null is allowed. */
  predicate NodeIn(nd: Node, size: int)
  {
    0 <= nd.left < size && 0 <= nd.right < size &&
    (nd.parent == NIL || 0 <= nd.parent < size) &&
    (nd.child == NIL || 0 <= nd.child < size) &&
    nd.degree >= 0
  }

  /** No pointer of the node array leads outside it. */
  predicate Closed(ns: seq<Node>)
  {
    forall i :: 0 <= i < |ns| ==> NodeIn(ns[i], |ns|)
  }

  /** The arena is closed and min is null or one of its nodes. */
  predicate Arena(h: Heap)
  {
    (h.min == NIL || 0 <= h.min < |h.nodes|) && Closed(h.nodes)
  }

  predicate Index(h: Heap, p: int)
  {
    0 <= p < |h.nodes|
  }

  // ---------------------------------------------------------------------
  // Ring surgery on the node array
  // ---------------------------------------------------------------------

  /**
   * Splice node in right of m, by the four writes addToRootList makes with
   * m = min and heapLink with m = x.child: node.right = m.right,
   * node.left = m, m.right.left = node, m.right = node.
   */
  function SpliceAfter(ns: seq<Node>, node: int, m: int): (r: seq<Node>)
    requires Closed(ns) && 0 <= node < |ns| && 0 <= m < |ns|
    ensures Closed(r) && |r| == |ns|
  {
    assert NodeIn(ns[m], |ns|);
    var ns1 := ns[node := ns[node].(right := ns[m].right)];
    var ns2 := ns1[node := ns1[node].(left := m)];
    var ns3 := ns2[ns2[m].right := ns2[ns2[m].right].(left := node)];
    ns3[m := ns3[m].(right := node)]
  }

  /** Join node's neighbours round it: node.left.right = node.right, node.right.left = node.left. */
  function Unsplice(ns: seq<Node>, node: int): (r: seq<Node>)
    requires Closed(ns) && 0 <= node < |ns|
    ensures Closed(r) && |r| == |ns|
  {
    assert NodeIn(ns[node], |ns|);
    var ns1 := ns[ns[node].left := ns[ns[node].left].(right := ns[node].right)];
    ns1[ns1[node].right := ns1[ns1[node].right].(left := ns1[node].left)]
  }

  // ---------------------------------------------------------------------
  // addToRootList, removeFromRootList, insert
  // ---------------------------------------------------------------------

  /** addToRootList: with no min the node becomes min, otherwise it is spliced in right of min. */
  function AddToRootList(h: Heap, node: int): (r: Heap)
    requires Arena(h) && Index(h, node)
    ensures Arena(r) && |r.nodes| == |h.nodes| && r.n == h.n && r.operations == h.operations
    ensures r.min == if h.min == NIL then node else h.min
  {
    if h.min == NIL then h.(min := node)
    else h.(nodes := SpliceAfter(h.nodes, node, h.min))
  }

  /** removeFromRootList: the node's neighbours are joined round it; the node keeps its own pointers. */
  function RemoveFromRootList(h: Heap, node: int): (r: Heap)
    requires Arena(h) && Index(h, node)
    ensures Arena(r) && |r.nodes| == |h.nodes| && r.min == h.min && r.n == h.n && r.operations == h.operations
  {
    h.(nodes := Unsplice(h.nodes, node))
  }

  /** A fresh node: degree 0, unmarked, no parent or child, a ring of its own. */
  function Singleton(key: int, value: Option<string>, self: int): Node
  {
    Node(key, value, 0, false, NIL, NIL, self, self)
  }

  /** insert(key, value): the new heap and the new node. */
  function Insert(h: Heap, key: int, value: Option<string>): (r: (Heap, int))
    requires Arena(h)
    ensures Arena(r.0) && r.1 == |h.nodes| && |r.0.nodes| == |h.nodes| + 1
  {
    var node := |h.nodes|;
    var h1 := h.(nodes := h.nodes + [Singleton(key, value, node)]);
    var h2 :=
      if h1.min == NIL then h1.(min := node)
      else
        var h3 := AddToRootList(h1, node);
        if key < h3.nodes[h3.min].key then h3.(min := node) else h3;
    (h2.(n := h2.n + 1, operations := h2.operations + [InsertOp(key, h2.n + 1)]), node)
  }

  // ---------------------------------------------------------------------
  // heapLink
  // ---------------------------------------------------------------------

  /**
   * y enters the child ring of x: with no child, x.child = y and
   * y.left = y.right = y; otherwise y is spliced in right of x.child.
   */
  function AdoptChild(ns: seq<Node>, y: int, x: int): (r: seq<Node>)
    requires Closed(ns) && 0 <= y < |ns| && 0 <= x < |ns|
    ensures Closed(r) && |r| == |ns|
  {
    assert NodeIn(ns[x], |ns|);
    var c := ns[x].child;
    if c == NIL then
      var ns1 := ns[x := ns[x].(child := y)];
      var ns2 := ns1[y := ns1[y].(right := y)];
      ns2[y := ns2[y].(left := y)]
    else
      SpliceAfter(ns, y, c)
  }

  /** The first two writes of heapLink: removeFromRootList(y), then y.parent = x. */
  function Detach(ns: seq<Node>, y: int, x: int): (r: seq<Node>)
    requires Closed(ns) && 0 <= y < |ns| && 0 <= x < |ns|
    ensures Closed(r) && |r| == |ns|
  {
    var ns1 := Unsplice(ns, y);
    ns1[y := ns1[y].(parent := x)]
  }

  /** The last two writes of heapLink: x.degree++, then y.mark = false. */
  function Stamp(ns: seq<Node>, y: int, x: int): (r: seq<Node>)
    requires Closed(ns) && 0 <= y < |ns| && 0 <= x < |ns|
    ensures Closed(r) && |r| == |ns|
  {
    assert NodeIn(ns[x], |ns|);
    var ns1 := ns[x := ns[x].(degree := ns[x].degree + 1)];
    ns1[y := ns1[y].(marked := false)]
  }

  /**
   * heapLink(y, x): y leaves its ring and becomes a child of x, spliced into
   * x's child ring; x's degree grows by one and y is unmarked.
   */
  function HeapLink(h: Heap, y: int, x: int): (r: Heap)
    requires Arena(h) && Index(h, y) && Index(h, x)
    ensures Arena(r) && |r.nodes| == |h.nodes| && r.min == h.min && r.n == h.n && r.operations == h.operations
  {
    h.(nodes := Stamp(AdoptChild(Detach(h.nodes, y, x), y, x), y, x))
  }

  // ---------------------------------------------------------------------
  // consolidate
  // ---------------------------------------------------------------------

  /** No node's key or value changes. */
  predicate SameKeys(h: Heap, r: Heap)
  {
    |r.nodes| == |h.nodes| &&
    forall i :: 0 <= i < |h.nodes| ==> r.nodes[i].key == h.nodes[i].key && r.nodes[i].value == h.nodes[i].value
  }

  /** Every slot of the degree array A is empty (NIL) or a node of the arena. */
  predicate Slots(a: seq<int>, size: int)
  {
    forall k :: 0 <= k < |a| ==> a[k] == NIL || 0 <= a[k] < size
  }

  /** A[k] in JavaScript: undefined past the end. */
  function SlotAt(a: seq<int>, k: int): int
  {
    if 0 <= k < |a| then a[k] else NIL
  }

  /** A[k] = x in JavaScript: an assignment past the end lengthens the array, leaving holes. */
  function Store(a: seq<int>, k: nat, x: int): (r: seq<int>)
    ensures |r| == if k < |a| then |a| else k + 1
    ensures r[k] == x && forall j :: 0 <= j < |r| && j != k ==> r[j] == SlotAt(a, j)
  {
    if k < |a| then a[k := x] else a + seq(k - |a|, _ => NIL) + [x]
  }

  /** Math.floor(Math.log2(n)) for n >= 1. */
  function FloorLog2(n: int): (r: nat)
    requires n >= 1
    ensures Pow2(r) <= n < 2 * Pow2(r)
  {
    if n < 2 then 0 else 1 + FloorLog2(n / 2)
  }

  function Pow2(k: nat): (p: nat)
    ensures p >= 1
  {
    if k == 0 then 1 else 2 * Pow2(k - 1)
  }

  /**
   * The inner while loop of consolidate: while A[degree] holds a node y,
   * the larger-keyed of x and y is linked under the other, which becomes x,
   * A[degree] is cleared and degree grows.  The result is the heap, A, x and
   * the degree at which the loop stopped.
   */
  function LinkLoop(h: Heap, a: seq<int>, x: int, degree: int): (r: (Heap, seq<int>, int, int))
    requires Arena(h) && Index(h, x) && Slots(a, |h.nodes|) && degree >= 0
    ensures Arena(r.0) && |r.0.nodes| == |h.nodes| && r.0.min == h.min && r.0.n == h.n && r.0.operations == h.operations
    ensures Slots(r.1, |h.nodes|) && |r.1| == |a| && Index(h, r.2) && r.3 >= degree
    ensures SlotAt(r.1, r.3) == NIL
    ensures forall k :: 0 <= k < |a| ==> r.1[k] == NIL || r.1[k] == a[k]
    ensures r.2 == x || r.2 in a
    decreases |a| - degree
  {
    if SlotAt(a, degree) != NIL then
      var y0 := a[degree];
      var swap := h.nodes[x].key > h.nodes[y0].key;
      var x1 := if swap then y0 else x;
      var y1 := if swap then x else y0;
      LinkLoop(HeapLink(h, y1, x1), a[degree := NIL], x1, degree + 1)
    else
      (h, a, x, degree)
  }

  /** One round of the inner loop: the loop from x at degree is the loop from the linked heap one degree up. */
  lemma LinkLoopStep(h: Heap, a: seq<int>, x: int, degree: int, h2: Heap)
    requires Arena(h) && Index(h, x) && Slots(a, |h.nodes|) && degree >= 0 && SlotAt(a, degree) != NIL
    requires var y0 := a[degree];
             var swap := h.nodes[x].key > h.nodes[y0].key;
             h2 == HeapLink(h, if swap then x else y0, if swap then y0 else x)
    ensures var y0 := a[degree];
            var x1 := if h.nodes[x].key > h.nodes[y0].key then y0 else x;
            LinkLoop(h, a, x, degree) == LinkLoop(h2, a[degree := NIL], x1, degree + 1)
  {
  }

  /**
   * The do-while loop of consolidate, from the node current on: run the
   * inner loop for x = current, store x in A, step to current.right and go
   * on unless that node was visited already (the start node is not marked
   * visited, so it can be met twice).
   */
  function Walk(h: Heap, a: seq<int>, current: int, visited: set<int>): (r: (Heap, seq<int>))
    requires Arena(h) && Index(h, current) && Slots(a, |h.nodes|)
    requires forall v :: v in visited ==> 0 <= v < |h.nodes|
    ensures Arena(r.0) && |r.0.nodes| == |h.nodes| && r.0.min == h.min && r.0.n == h.n && r.0.operations == h.operations
    ensures Slots(r.1, |h.nodes|)
    decreases |h.nodes| - |visited|
  {
    var (h1, a1) := Visit(h, a, current);
    var next := h1.nodes[current].right;
    if next in visited then (h1, a1)
    else
      Unvisited(visited, next, |h.nodes|);
      Walk(h1, a1, next, visited + {next})
  }

  /** One pass of the do-while body: the inner loop for x = current, then A[degree] = x. */
  function Visit(h: Heap, a: seq<int>, current: int): (r: (Heap, seq<int>))
    requires Arena(h) && Index(h, current) && Slots(a, |h.nodes|)
    ensures Arena(r.0) && |r.0.nodes| == |h.nodes| && r.0.min == h.min && r.0.n == h.n && r.0.operations == h.operations
    ensures Slots(r.1, |h.nodes|) && 0 <= r.0.nodes[current].right < |h.nodes|
  {
    assert NodeIn(h.nodes[current], |h.nodes|);
    var l := LinkLoop(h, a, current, h.nodes[current].degree);
    assert NodeIn(l.0.nodes[current], |h.nodes|);
    (l.0, Store(l.1, l.3, l.2))
  }

  /** Adding an arena index not yet visited grows the visited set by one and keeps it within the arena. */
  lemma Unvisited(visited: set<int>, next: int, size: nat)
    requires forall v :: v in visited ==> 0 <= v < size
    requires 0 <= next < size && next !in visited
    ensures |visited + {next}| == |visited| + 1 <= size
    ensures forall v :: v in visited + {next} ==> 0 <= v < size
  {
    BoundedSet(visited + {next}, size);
  }

  /** A set of arena indices has at most as many members as the arena. */
  lemma {:induction false} BoundedSet(s: set<int>, size: nat)
    requires forall v :: v in s ==> 0 <= v < size
    ensures |s| <= size
  {
    if size == 0 {
      assert forall v :: v !in s;
      assert s == {};
    } else {
      var t := s - {size - 1};
      BoundedSet(t, size - 1);
      if size - 1 in s {
        assert s == t + {size - 1};
      } else {
        assert s == t;
      }
    }
  }

  /** The final scan of consolidate: min becomes the first node of least key among the slots of A. */
  function ScanMin(ns: seq<Node>, a: seq<int>, i: nat, m: int): (r: int)
    requires Slots(a, |ns|) && (m == NIL || 0 <= m < |ns|)
    ensures r == NIL || 0 <= r < |ns|
    decreases |a| - i
  {
    if i >= |a| then m
    else
      var m1 :=
        if a[i] == NIL then m
        else if m == NIL then a[i]
        else if ns[a[i]].key < ns[m].key then a[i]
        else m;
      ScanMin(ns, a, i + 1, m1)
  }

  /**
   * The scan yields null exactly when it starts from null and every slot
   * from i on is empty; otherwise the running minimum or a slot, whose key
   * is at most the running minimum's and every filled slot's.
   */
  lemma {:induction false} ScanMinLeast(ns: seq<Node>, a: seq<int>, i: nat, m: int)
    requires Slots(a, |ns|) && (m == NIL || 0 <= m < |ns|)
    ensures var r := ScanMin(ns, a, i, m);
            (r == NIL <==> m == NIL && forall k :: i <= k < |a| ==> a[k] == NIL) &&
            (r != NIL ==> r == m || exists k :: i <= k < |a| && a[k] == r) &&
            (r != NIL && m != NIL ==> ns[r].key <= ns[m].key) &&
            (r != NIL ==> forall k :: i <= k < |a| && a[k] != NIL ==> ns[r].key <= ns[a[k]].key)
    decreases |a| - i
  {
    if i < |a| {
      var m1 :=
        if a[i] == NIL then m
        else if m == NIL then a[i]
        else if ns[a[i]].key < ns[m].key then a[i]
        else m;
      ScanMinLeast(ns, a, i + 1, m1);
    }
  }

  /** The length of A: Math.floor(Math.log2(n)) + 2. */
  function SlotCount(n: int): nat
    requires n >= 1
  {
    FloorLog2(n) + 2
  }

  /** consolidate(), for a heap whose min is set and whose count n is at least 1. */
  function Consolidate(h: Heap): (r: Heap)
    requires Arena(h) && Index(h, h.min) && h.n >= 1
    ensures Arena(r) && |r.nodes| == |h.nodes| && r.n == h.n && r.operations == h.operations
  {
    var w := Walk(h, seq(SlotCount(h.n), _ => NIL), h.min, {});
    w.0.(min := ScanMin(w.0.nodes, w.1, 0, NIL))
  }

  // ---------------------------------------------------------------------
  // extractMin
  // ---------------------------------------------------------------------

  /**
   * The do-while loop of extractMin over the child ring of z: keep the next
   * child, move the current one to the root list, clear its parent, step on,
   * until the walk is back at z.child.  At most steps + 1 children are moved.
   */
  function ChildWalk(h: Heap, z: int, current: int, steps: nat): (r: Heap)
    requires Arena(h) && Index(h, z) && Index(h, current) && h.min == z
    ensures Arena(r) && |r.nodes| == |h.nodes| && r.min == z && r.n == h.n && r.operations == h.operations
    ensures SameKeys(h, r)
    decreases steps
  {
    assert NodeIn(h.nodes[current], |h.nodes|);
    var next := h.nodes[current].right;
    var h1 := MoveToRoot(h, current);
    if next == h1.nodes[z].child || steps == 0 then h1
    else
      var r := ChildWalk(h1, z, next, steps - 1);
      SameKeysTrans(h, h1, r);
      r
  }

  /** One pass of that loop: addToRootList(current), then current.parent = null. */
  function MoveToRoot(h: Heap, current: int): (r: Heap)
    requires Arena(h) && Index(h, current) && h.min != NIL
    ensures Arena(r) && |r.nodes| == |h.nodes| && r.min == h.min && r.n == h.n && r.operations == h.operations
    ensures SameKeys(h, r)
  {
    var h1 := AddToRootList(h, current);
    SpliceAfterFrame(h.nodes, current, h.min);
    h1.(nodes := h1.nodes[current := h1.nodes[current].(parent := NIL)])
  }

  lemma SameKeysTrans(a: Heap, b: Heap, c: Heap)
    requires SameKeys(a, b) && SameKeys(b, c)
    ensures SameKeys(a, c)
  {
  }

  /** How extractMin ends: it returns a node (or null), or consolidate throws. */
  datatype Extracted = Returned(heap: Heap, z: int) | Thrown(heap: Heap)

  /**
   * extractMin().  With a count n below 1 at consolidate, new Array(-Infinity)
   * or new Array(NaN) throws a RangeError, leaving the heap as it stood.
   */
  function ExtractMin(h: Heap): (r: Extracted)
    requires Arena(h)
    ensures Arena(r.heap) && |r.heap.nodes| == |h.nodes|
    ensures r.Returned? ==> r.z == h.min
  {
    if h.min == NIL then Returned(h, NIL)
    else
      var z := h.min;
      var h1 := if h.nodes[z].child != NIL then ChildWalk(h, z, h.nodes[z].child, |h.nodes|) else h;
      AfterRemoval(RemoveFromRootList(h1, z), z)
  }

  /**
   * The rest of extractMin once z has left the root list: min becomes null
   * when z was alone, otherwise z.right, and consolidate runs; then the
   * count drops and z's key is logged.
   */
  function AfterRemoval(h2: Heap, z: int): (r: Extracted)
    requires Arena(h2) && Index(h2, z)
    ensures Arena(r.heap) && |r.heap.nodes| == |h2.nodes|
    ensures r.Returned? ==> r.z == z
  {
    if h2.nodes[z].right == z then
      Returned(Logged(h2.(min := NIL), h2.nodes[z].key), z)
    else
      var h3 := h2.(min := h2.nodes[z].right);
      if h3.n < 1 then Thrown(h3)
      else
        var h4 := Consolidate(h3);
        Returned(Logged(h4, h4.nodes[z].key), z)
  }

  /** The end of a successful extractMin: n drops by one and the extraction is logged. */
  function Logged(h: Heap, key: int): (r: Heap)
    requires Arena(h)
    ensures Arena(r) && r.nodes == h.nodes && r.min == h.min
  {
    h.(n := h.n - 1, operations := h.operations + [ExtractMinOp(key, h.n - 1)])
  }

  /** The empty heap of the constructor. */
  function EmptyHeap(): (h: Heap)
    ensures Arena(h)
  {
    Heap([], NIL, 0, [])
  }

  // ---------------------------------------------------------------------
  // Properties
  // ---------------------------------------------------------------------

  /**
   * insert: the count grows by one and one entry is logged; the new node is
   * a degree-0, unmarked, parentless, childless node spliced in right of min
   * (or alone, as min, in an empty heap); min moves to it exactly when its
   * key is strictly smaller; no other node changes anything but left and right.
   */
  lemma InsertProperties(h: Heap, key: int, value: Option<string>)
    requires Arena(h)
    ensures var (r, node) := Insert(h, key, value);
            var nd := r.nodes[node];
            r.n == h.n + 1 && r.operations == h.operations + [InsertOp(key, h.n + 1)] &&
            nd.key == key && nd.value == value && nd.degree == 0 && !nd.marked && nd.parent == NIL && nd.child == NIL &&
            r.min == (if h.min == NIL || key < h.nodes[h.min].key then node else h.min) &&
            (h.min == NIL ==> nd.left == node && nd.right == node) &&
            (h.min != NIL ==> nd.left == h.min && nd.right == h.nodes[h.min].right && r.nodes[h.min].right == node) &&
            forall i :: 0 <= i < |h.nodes| ==> Payload(r.nodes[i], h.nodes[i])
  {
    var node := |h.nodes|;
    if h.min != NIL {
      var ns := h.nodes + [Singleton(key, value, node)];
      assert NodeIn(h.nodes[h.min], |h.nodes|);
      SpliceAfterFrame(ns, node, h.min);
      SpliceAfterRing(ns, node, h.min);
    }
  }

  /** insert moves min to the new node exactly when the heap was empty or the new key is strictly smaller. */
  lemma InsertMin(h: Heap, key: int, value: Option<string>)
    requires Arena(h)
    ensures var (r, node) := Insert(h, key, value);
            r.min == (if h.min == NIL || key < h.nodes[h.min].key then node else h.min)
  {
    if h.min != NIL {
      var ns := h.nodes + [Singleton(key, value, |h.nodes|)];
      SpliceAfterFrame(ns, |h.nodes|, h.min);
    }
  }

  /** extractMin on an empty heap returns null and changes nothing. */
  lemma ExtractMinEmpty(h: Heap)
    requires Arena(h) && h.min == NIL
    ensures ExtractMin(h) == Returned(h, NIL)
  {
  }

  /**
   * extractMin on a heap with a min returns that node; if it does not throw,
   * the count drops by one and exactly one entry is logged, with the node's
   * key and the new count.  It throws only when the count is below 1.
   */
  lemma {:induction false} ExtractMinLog(h: Heap)
    requires Arena(h) && h.min != NIL
    ensures var r := ExtractMin(h);
            (r.Returned? ==> r.z == h.min && r.heap.n == h.n - 1 &&
                             r.heap.operations == h.operations + [ExtractMinOp(h.nodes[h.min].key, h.n - 1)]) &&
            (r.Thrown? ==> h.n < 1 && r.heap.n == h.n && r.heap.operations == h.operations) &&
            (h.n >= 1 ==> r.Returned?)
  {
    var z := h.min;
    var h1 := if h.nodes[z].child != NIL then ChildWalk(h, z, h.nodes[z].child, |h.nodes|) else h;
    assert h1.nodes[z].key == h.nodes[z].key;
    UnspliceFrame(h1.nodes, z);
    var h2 := RemoveFromRootList(h1, z);
    if h2.nodes[z].right != z && h.n >= 1 {
      ConsolidateKeys(h2.(min := h2.nodes[z].right));
    }
  }

  /** Two nodes agree on everything but their left and right pointers. */
  predicate Payload(a: Node, b: Node)
  {
    a.key == b.key && a.value == b.value && a.degree == b.degree && a.marked == b.marked &&
    a.parent == b.parent && a.child == b.child
  }

  /** Splicing y in right of m changes no payload, and changes only y, m and m's old right neighbour. */
  lemma SpliceAfterFrame(ns: seq<Node>, y: int, m: int)
    requires Closed(ns) && 0 <= y < |ns| && 0 <= m < |ns|
    ensures NodeIn(ns[m], |ns|)
    ensures var r := SpliceAfter(ns, y, m);
            (forall i :: 0 <= i < |ns| ==> Payload(r[i], ns[i])) &&
            forall i :: 0 <= i < |ns| && i != y && i != m && i != ns[m].right ==> r[i] == ns[i]
  {
  }

  /** When y is neither m nor m's right neighbour, the splice puts y between them. */
  lemma SpliceAfterRing(ns: seq<Node>, y: int, m: int)
    requires Closed(ns) && 0 <= y < |ns| && 0 <= m < |ns| && m != y && ns[m].right != y
    ensures var r := SpliceAfter(ns, y, m);
            r[m].right == y && r[y].left == m && r[y].right == ns[m].right && r[ns[m].right].left == y
  {
  }

  /** removeFromRootList changes no payload, and changes only the node's two neighbours. */
  lemma UnspliceFrame(ns: seq<Node>, node: int)
    requires Closed(ns) && 0 <= node < |ns|
    ensures var r := Unsplice(ns, node);
            (forall i :: 0 <= i < |ns| ==> Payload(r[i], ns[i])) &&
            forall i :: 0 <= i < |ns| && i != ns[node].left && i != ns[node].right ==> r[i] == ns[i]
  {
  }

  /** Node i's right neighbour points back at it by left, and its left neighbour by right. */
  predicate LinkedAt(ns: seq<Node>, i: int)
  {
    0 <= i < |ns| && 0 <= ns[i].right < |ns| && 0 <= ns[i].left < |ns| &&
    ns[ns[i].right].left == i && ns[ns[i].left].right == i
  }

  /**
   * Every ring is doubly linked: left and right are mutually inverse, so
   * following right from any node runs round a circular list and left runs
   * round it backwards.
   */
  predicate Linked(h: Heap)
  {
    Arena(h) && forall i :: 0 <= i < |h.nodes| ==> LinkedAt(h.nodes, i)
  }

  /** A node that forms a ring of its own. */
  predicate Alone(ns: seq<Node>, i: int)
  {
    0 <= i < |ns| && ns[i].left == i && ns[i].right == i
  }

  /** No node other than j points at j by left or right. */
  predicate Detached(ns: seq<Node>, j: int)
  {
    forall i :: 0 <= i < |ns| && i != j ==> ns[i].left != j && ns[i].right != j
  }

  /** Splicing a detached node in right of m, beside rings that are doubly linked, leaves every ring doubly linked. */
  lemma SpliceLinked(ns: seq<Node>, node: int, m: int)
    requires Closed(ns) && 0 <= node < |ns| && 0 <= m < |ns| && m != node
    requires forall i :: 0 <= i < |ns| && i != node ==> LinkedAt(ns, i)
    requires Detached(ns, node)
    ensures forall i :: 0 <= i < |ns| ==> LinkedAt(SpliceAfter(ns, node, m), i)
  {
    var r := SpliceAfter(ns, node, m);
    assert LinkedAt(ns, m);
    SpliceAfterFrame(ns, node, m);
    SpliceAfterRing(ns, node, m);
    forall i | 0 <= i < |ns|
      ensures LinkedAt(r, i)
    {
      if i != node {
        assert LinkedAt(ns, i);
      }
    }
  }

  /** In an array whose rings are all doubly linked, a node alone is pointed at by no other. */
  lemma AloneDetached(ns: seq<Node>, node: int)
    requires forall i :: 0 <= i < |ns| ==> LinkedAt(ns, i)
    requires Alone(ns, node)
    ensures Detached(ns, node)
  {
    forall i | 0 <= i < |ns| && i != node
      ensures ns[i].left != node && ns[i].right != node
    {
      assert LinkedAt(ns, i);
    }
  }

  /**
   * addToRootList of a node that is alone keeps every ring doubly linked and
   * puts the node between min and min's old right neighbour.
   */
  lemma AddAloneLinked(h: Heap, node: int)
    requires Linked(h) && Index(h, node) && Alone(h.nodes, node) && node != h.min
    ensures var r := AddToRootList(h, node);
            Linked(r) &&
            (h.min != NIL ==> r.nodes[h.min].right == node && r.nodes[node].left == h.min &&
                              r.nodes[node].right == h.nodes[h.min].right && r.nodes[h.nodes[h.min].right].left == node)
  {
    if h.min != NIL {
      AloneDetached(h.nodes, node);
      SpliceLinked(h.nodes, node, h.min);
      SpliceAfterRing(h.nodes, node, h.min);
    }
  }

  /** insert keeps every ring doubly linked. */
  lemma InsertLinked(h: Heap, key: int, value: Option<string>)
    requires Linked(h)
    ensures Linked(Insert(h, key, value).0)
  {
    var node := |h.nodes|;
    var h1 := h.(nodes := h.nodes + [Singleton(key, value, node)]);
    forall i | 0 <= i < |h1.nodes|
      ensures LinkedAt(h1.nodes, i)
    {
      if i < node {
        assert LinkedAt(h.nodes, i);
      }
    }
    if h1.min != NIL {
      AddAloneLinked(h1, node);
    }
  }

  /**
   * Unsplicing a node of doubly linked rings joins its two neighbours: the
   * node keeps its own pointers, no other node points at it, and every other
   * node stays doubly linked.
   */
  lemma UnspliceLinked(ns: seq<Node>, node: int)
    requires Closed(ns) && 0 <= node < |ns|
    requires forall i :: 0 <= i < |ns| ==> LinkedAt(ns, i)
    ensures var r := Unsplice(ns, node);
            r[node] == ns[node] && Detached(r, node) &&
            (ns[node].left != node ==> r[ns[node].left].right == ns[node].right && r[ns[node].right].left == ns[node].left) &&
            forall i :: 0 <= i < |r| && i != node ==> LinkedAt(r, i)
  {
    var r := Unsplice(ns, node);
    assert LinkedAt(ns, node);
    UnspliceFrame(ns, node);
    forall i | 0 <= i < |r| && i != node
      ensures LinkedAt(r, i) && r[i].left != node && r[i].right != node
    {
      assert LinkedAt(ns, i);
    }
  }

  /** removeFromRootList, on doubly linked rings. */
  lemma RemoveLinked(h: Heap, node: int)
    requires Linked(h) && Index(h, node)
    ensures var r := RemoveFromRootList(h, node);
            var (l, rt) := (h.nodes[node].left, h.nodes[node].right);
            r.nodes[node] == h.nodes[node] && Detached(r.nodes, node) &&
            (l != node ==> r.nodes[l].right == rt && r.nodes[rt].left == l) &&
            forall i :: 0 <= i < |r.nodes| && i != node ==> LinkedAt(r.nodes, i)
  {
    UnspliceLinked(h.nodes, node);
  }

  /** A write that leaves left and right alone keeps every node's linkage and detachment as it was. */
  lemma KeepLinks(ns: seq<Node>, ms: seq<Node>)
    requires |ns| == |ms|
    requires forall i :: 0 <= i < |ns| ==> ms[i].left == ns[i].left && ms[i].right == ns[i].right
    ensures forall i :: LinkedAt(ns, i) <==> LinkedAt(ms, i)
    ensures forall j :: Detached(ns, j) <==> Detached(ms, j)
  {
  }

  /**
   * y, detached, enters the child ring of x (x's child not y itself), beside
   * doubly linked rings: every ring ends up doubly linked.
   */
  lemma AdoptLinked(ns: seq<Node>, y: int, x: int)
    requires Closed(ns) && 0 <= y < |ns| && 0 <= x < |ns| && ns[x].child != y
    requires forall i :: 0 <= i < |ns| && i != y ==> LinkedAt(ns, i)
    requires Detached(ns, y)
    ensures forall i :: 0 <= i < |ns| ==> LinkedAt(AdoptChild(ns, y, x), i)
  {
    var c := ns[x].child;
    if c == NIL {
      var r := AdoptChild(ns, y, x);
      forall i | 0 <= i < |ns|
        ensures LinkedAt(r, i)
      {
        if i != y {
          assert LinkedAt(ns, i);
        }
      }
    } else {
      assert NodeIn(ns[x], |ns|);
      SpliceLinked(ns, y, c);
    }
  }

  /**
   * heapLink(y, x) keeps every ring doubly linked: y leaves its ring, whose
   * neighbours are joined, and enters the child ring of x.  (This needs y not
   * to be x's child already, which would make the splice a no-op on a ring
   * y has just left.)
   */
  lemma HeapLinkLinked(h: Heap, y: int, x: int)
    requires Linked(h) && Index(h, y) && Index(h, x) && h.nodes[x].child != y
    ensures Linked(HeapLink(h, y, x))
  {
    DetachLinked(h.nodes, y, x);
    var ns2 := Detach(h.nodes, y, x);
    AdoptLinked(ns2, y, x);
    StampLinked(AdoptChild(ns2, y, x), y, x);
  }

  /** After the first two writes of heapLink, y is detached and every other node doubly linked. */
  lemma DetachLinked(ns: seq<Node>, y: int, x: int)
    requires Closed(ns) && 0 <= y < |ns| && 0 <= x < |ns|
    requires forall i :: 0 <= i < |ns| ==> LinkedAt(ns, i)
    ensures var r := Detach(ns, y, x);
            r[x].child == ns[x].child && Detached(r, y) &&
            forall i :: 0 <= i < |ns| && i != y ==> LinkedAt(r, i)
  {
    var ns1 := Unsplice(ns, y);
    UnspliceLinked(ns, y);
    UnspliceFrame(ns, y);
    KeepLinks(ns1, Detach(ns, y, x));
  }

  /** The last two writes of heapLink touch no ring. */
  lemma StampLinked(ns: seq<Node>, y: int, x: int)
    requires Closed(ns) && 0 <= y < |ns| && 0 <= x < |ns|
    requires forall i :: 0 <= i < |ns| ==> LinkedAt(ns, i)
    ensures forall i :: 0 <= i < |ns| ==> LinkedAt(Stamp(ns, y, x), i)
  {
    KeepLinks(ns, Stamp(ns, y, x));
  }

  /** The first two writes of heapLink change y's parent and the pointers of y's two neighbours, nothing else. */
  lemma DetachFrame(ns: seq<Node>, y: int, x: int)
    requires Closed(ns) && 0 <= y < |ns| && 0 <= x < |ns|
    ensures var r := Detach(ns, y, x);
            r[y] == ns[y].(parent := x) &&
            (forall i :: 0 <= i < |ns| && i != y ==> Payload(r[i], ns[i])) &&
            forall i :: 0 <= i < |ns| && i != y && i != ns[y].left && i != ns[y].right ==> r[i] == ns[i]
  {
    UnspliceFrame(ns, y);
  }

  /**
   * Adopting a detached y as a child of x (x's child not y itself): x's
   * child becomes y when x had none, and y then forms a ring of its own;
   * otherwise y sits right of x's child c.  No other payload changes, and
   * left and right change only at y, c and c's old right neighbour.
   */
  lemma AdoptFrame(ns: seq<Node>, y: int, x: int)
    requires Closed(ns) && 0 <= y < |ns| && 0 <= x < |ns| && x != y && ns[x].child != y && Detached(ns, y)
    ensures var r := AdoptChild(ns, y, x);
            var c := ns[x].child;
            (forall i :: 0 <= i < |ns| && i != x ==> Payload(r[i], ns[i])) &&
            Payload(r[x], ns[x].(child := if c == NIL then y else c)) &&
            (c == NIL ==> Alone(r, y)) &&
            (c != NIL ==> r[c].right == y && r[y].left == c) &&
            forall i :: 0 <= i < |ns| && i != y && i != c && (c == NIL || i != ns[c].right) ==>
              r[i].left == ns[i].left && r[i].right == ns[i].right
  {
    var c := ns[x].child;
    if c != NIL {
      assert NodeIn(ns[x], |ns|);
      assert ns[c].right != y;
      SpliceAfterFrame(ns, y, c);
      SpliceAfterRing(ns, y, c);
    }
  }

  /** The last two writes of heapLink: x's degree and y's mark, nothing else. */
  lemma StampFrame(ns: seq<Node>, y: int, x: int)
    requires Closed(ns) && 0 <= y < |ns| && 0 <= x < |ns| && x != y
    ensures var r := Stamp(ns, y, x);
            r[x] == ns[x].(degree := ns[x].degree + 1) && r[y] == ns[y].(marked := false) &&
            forall i :: 0 <= i < |ns| && i != x && i != y ==> r[i] == ns[i]
  {
  }

  /**
   * What heapLink(y, x) writes: y's parent is x and y is unmarked; x's degree
   * grows by one and x's child is y when x had none; y sits alone in that new
   * ring, or right of x's old child.
   */
  lemma HeapLinkFields(h: Heap, y: int, x: int)
    requires Linked(h) && Index(h, y) && Index(h, x) && x != y && h.nodes[x].child != y
    ensures var r := HeapLink(h, y, x);
            var c := h.nodes[x].child;
            r.nodes[y].parent == x && !r.nodes[y].marked &&
            r.nodes[x].degree == h.nodes[x].degree + 1 &&
            r.nodes[x].child == (if c == NIL then y else c) &&
            (c == NIL ==> Alone(r.nodes, y)) &&
            (c != NIL ==> r.nodes[c].right == y && r.nodes[y].left == c)
  {
    var ns := h.nodes;
    var ns2 := Detach(ns, y, x);
    DetachFrame(ns, y, x);
    DetachLinked(ns, y, x);
    var ns3 := AdoptChild(ns2, y, x);
    AdoptFrame(ns2, y, x);
    StampFrame(ns3, y, x);
  }

  /** heapLink changes no degree, mark, parent or child but those of x and y. */
  lemma HeapLinkPayloads(h: Heap, y: int, x: int)
    requires Linked(h) && Index(h, y) && Index(h, x) && x != y && h.nodes[x].child != y
    ensures var r := HeapLink(h, y, x);
            forall i :: 0 <= i < |h.nodes| && i != x && i != y ==> Payload(r.nodes[i], h.nodes[i])
  {
    var ns2 := Detach(h.nodes, y, x);
    DetachFrame(h.nodes, y, x);
    DetachLinked(h.nodes, y, x);
    AdoptFrame(ns2, y, x);
    StampFrame(AdoptChild(ns2, y, x), y, x);
  }

  /**
   * heapLink changes left and right only at y, at y's two old neighbours,
   * at x's child and at that child's right neighbour.
   */
  lemma HeapLinkPointers(h: Heap, y: int, x: int)
    requires Linked(h) && Index(h, y) && Index(h, x) && x != y && h.nodes[x].child != y
    ensures var r := HeapLink(h, y, x);
            var c := h.nodes[x].child;
            forall i :: 0 <= i < |h.nodes| && i != y && i != h.nodes[y].left && i != h.nodes[y].right && i != c &&
                        (c == NIL || i != h.nodes[c].right) ==>
              r.nodes[i].left == h.nodes[i].left && r.nodes[i].right == h.nodes[i].right
  {
    var ns := h.nodes;
    var c := ns[x].child;
    var ns2 := Detach(ns, y, x);
    DetachFrame(ns, y, x);
    DetachLinked(ns, y, x);
    if c != NIL {
      assert NodeIn(ns[x], |ns|);
      assert ns2[c].right == ns[c].right || c == ns[y].left;
    }
    var ns3 := AdoptChild(ns2, y, x);
    AdoptFrame(ns2, y, x);
    var r := Stamp(ns3, y, x);
    StampFrame(ns3, y, x);
    forall i | 0 <= i < |ns| && i != y && i != ns[y].left && i != ns[y].right && i != c && (c == NIL || i != ns[c].right)
      ensures r[i].left == ns[i].left && r[i].right == ns[i].right
    {
      assert ns2[i] == ns[i];
      assert r[i].left == ns3[i].left && r[i].right == ns3[i].right;
    }
  }

  /** heapLink changes no node's key or value. */
  lemma HeapLinkKeys(h: Heap, y: int, x: int)
    requires Arena(h) && Index(h, y) && Index(h, x)
    ensures SameKeys(h, HeapLink(h, y, x))
  {
    var ns := h.nodes;
    var ns2 := Detach(ns, y, x);
    DetachFrame(ns, y, x);
    var ns3 := AdoptChild(ns2, y, x);
    AdoptKeys(ns2, y, x);
    var r := Stamp(ns3, y, x);
    forall i | 0 <= i < |ns|
      ensures r[i].key == ns[i].key && r[i].value == ns[i].value
    {
      assert r[i].key == ns3[i].key && r[i].value == ns3[i].value;
    }
  }

  /** Adopting a child changes no key or value. */
  lemma AdoptKeys(ns: seq<Node>, y: int, x: int)
    requires Closed(ns) && 0 <= y < |ns| && 0 <= x < |ns|
    ensures var r := AdoptChild(ns, y, x);
            forall i :: 0 <= i < |ns| ==> r[i].key == ns[i].key && r[i].value == ns[i].value
  {
    assert NodeIn(ns[x], |ns|);
    if ns[x].child != NIL {
      SpliceAfterFrame(ns, y, ns[x].child);
    }
  }

  /** The inner loop of consolidate changes no key or value. */
  lemma {:induction false} LinkLoopKeys(h: Heap, a: seq<int>, x: int, degree: int)
    requires Arena(h) && Index(h, x) && Slots(a, |h.nodes|) && degree >= 0
    ensures SameKeys(h, LinkLoop(h, a, x, degree).0)
    decreases |a| - degree
  {
    if SlotAt(a, degree) != NIL {
      var y0 := a[degree];
      var swap := h.nodes[x].key > h.nodes[y0].key;
      var x1 := if swap then y0 else x;
      var y1 := if swap then x else y0;
      var h1 := HeapLink(h, y1, x1);
      HeapLinkKeys(h, y1, x1);
      LinkLoopKeys(h1, a[degree := NIL], x1, degree + 1);
      SameKeysTrans(h, h1, LinkLoop(h, a, x, degree).0);
    }
  }

  /** The do-while loop of consolidate changes no key or value. */
  lemma {:induction false} WalkKeys(h: Heap, a: seq<int>, current: int, visited: set<int>)
    requires Arena(h) && Index(h, current) && Slots(a, |h.nodes|)
    requires forall v :: v in visited ==> 0 <= v < |h.nodes|
    ensures SameKeys(h, Walk(h, a, current, visited).0)
    decreases |h.nodes| - |visited|
  {
    assert NodeIn(h.nodes[current], |h.nodes|);
    LinkLoopKeys(h, a, current, h.nodes[current].degree);
    var (h1, a1) := Visit(h, a, current);
    var next := h1.nodes[current].right;
    if next !in visited {
      Unvisited(visited, next, |h.nodes|);
      WalkKeys(h1, a1, next, visited + {next});
      SameKeysTrans(h, h1, Walk(h, a, current, visited).0);
    }
  }

  /** consolidate changes no key or value. */
  lemma ConsolidateKeys(h: Heap)
    requires Arena(h) && Index(h, h.min) && h.n >= 1
    ensures SameKeys(h, Consolidate(h))
  {
    WalkKeys(h, seq(SlotCount(h.n), _ => NIL), h.min, {});
  }

  // ---------------------------------------------------------------------
  // A heap built by inserts
  // ---------------------------------------------------------------------

  /** The heap after insert(k) for each key in turn, on a new heap (the value left at its default, null). */
  function InsertAll(keys: seq<int>): (h: Heap)
    ensures Arena(h) && |h.nodes| == |keys|
    decreases |keys|
  {
    if keys == [] then EmptyHeap()
    else Insert(InsertAll(keys[..|keys| - 1]), keys[|keys| - 1], None).0
  }

  /** The log those inserts write: one entry per key, with the count after it. */
  function InsertLog(keys: seq<int>): (ops: seq<Operation>)
    ensures |ops| == |keys|
    ensures forall i :: 0 <= i < |keys| ==> ops[i] == InsertOp(keys[i], i + 1)
    decreases |keys|
  {
    if keys == [] then [] else InsertLog(keys[..|keys| - 1]) + [InsertOp(keys[|keys| - 1], |keys|)]
  }

  /** m is the first position of a least key. */
  predicate FirstMin(keys: seq<int>, m: int)
  {
    0 <= m < |keys| &&
    (forall j :: 0 <= j < |keys| ==> keys[m] <= keys[j]) &&
    (forall j :: 0 <= j < m ==> keys[m] < keys[j])
  }

  /**
   * After a run of inserts on a new heap, node i holds the i-th key as a
   * fresh root, every ring is doubly linked, the count is the number of
   * keys and the log holds one insert entry per key.
   */
  lemma {:induction false} InsertAllProperties(keys: seq<int>)
    ensures var h := InsertAll(keys);
            Linked(h) && h.n == |keys| && h.operations == InsertLog(keys) &&
            forall i :: 0 <= i < |keys| ==>
              h.nodes[i].key == keys[i] && h.nodes[i].value == None && h.nodes[i].degree == 0 &&
              !h.nodes[i].marked && h.nodes[i].parent == NIL && h.nodes[i].child == NIL
    decreases |keys|
  {
    if keys != [] {
      var init := keys[..|keys| - 1];
      var key := keys[|keys| - 1];
      var h := InsertAll(init);
      InsertAllProperties(init);
      InsertProperties(h, key, None);
      InsertLinked(h, key, None);
      var r := InsertAll(keys);
      forall i | 0 <= i < |keys|
        ensures r.nodes[i].key == keys[i] && r.nodes[i].value == None && r.nodes[i].degree == 0 &&
                !r.nodes[i].marked && r.nodes[i].parent == NIL && r.nodes[i].child == NIL
      {
        if i < |init| {
          assert Payload(r.nodes[i], h.nodes[i]) && keys[i] == init[i];
        }
      }
    }
  }

  /** After a run of inserts on a new heap, min is the first node of least key (null for no keys). */
  lemma {:induction false} InsertAllMin(keys: seq<int>)
    ensures var h := InsertAll(keys);
            (keys == [] <==> h.min == NIL) && (keys != [] ==> FirstMin(keys, h.min))
    decreases |keys|
  {
    if keys != [] {
      var init := keys[..|keys| - 1];
      var key := keys[|keys| - 1];
      var h := InsertAll(init);
      InsertAllMin(init);
      InsertMin(h, key, None);
      assert keys == init + [key];
      if init != [] {
        assert h.nodes[h.min].key == init[h.min] by { InsertAllProperties(init); }
        FirstMinSnoc(init, h.min, key);
      }
    }
  }

  /** Appending a key moves the first least position to it exactly when the key is strictly smaller. */
  lemma FirstMinSnoc(keys: seq<int>, m: int, key: int)
    requires FirstMin(keys, m)
    ensures FirstMin(keys + [key], if key < keys[m] then |keys| else m)
  {
  }

  /**
   * The first extractMin after a run of inserts returns the first node of
   * least key, and logs it.
   */
  lemma ExtractAfterInserts(keys: seq<int>)
    requires keys != []
    ensures var e := ExtractMin(InsertAll(keys));
            e.Returned? && FirstMin(keys, e.z) &&
            e.heap.n == |keys| - 1 && e.heap.operations == InsertLog(keys) + [ExtractMinOp(keys[e.z], |keys| - 1)]
  {
    var h := InsertAll(keys);
    InsertAllProperties(keys);
    InsertAllMin(keys);
    assert h.min != NIL && h.n == |keys|;
    assert h.nodes[h.min].key == keys[h.min];
    ExtractMinLog(h);
  }
}
