/** Usage scenarios of WtLeftHeap, each proved from the contracts of the
    heap's operations alone: heaps sharing one store, ties between equal keys,
    and an updateKey whose walk is known in advance. */
module Scenarios {
  import opened LeftistTree
  import opened NodeStore
  import opened Sift
  import opened Heap

  /** Two empty heaps on one new shared store. */
  method TwoEmpty<V>() returns (h1: WtLeftHeap<V>, h2: WtLeftHeap<V>)
    ensures fresh(h1) && fresh(h2) && fresh(h1.store)
    ensures h1 != h2 && h1.store == h2.store && h1.Valid() && h2.Valid()
    ensures h1.tree == Leaf && h2.tree == Leaf && h1.size == 0 && h2.size == 0
    ensures h1.Elems() == map[] && h2.Elems() == map[]
  {
    var mem := new Store<V>();
    h1 := new WtLeftHeap(mem);
    h2 := new WtLeftHeap(mem);
  }

  /** Two heaps on one shared store, each filled by one insert: they stay
      independent and the two inserts get distinct locators. */
  method TwoSingletons<V>(x1: int, v1: V, x2: int, v2: V)
    returns (h1: WtLeftHeap<V>, h2: WtLeftHeap<V>, l1: nat, l2: nat)
    ensures fresh(h1) && fresh(h2) && fresh(h1.store)
    ensures h1 != h2 && h1.store == h2.store && h1.Valid() && h2.Valid()
    ensures Members(h1.tree) !! Members(h2.tree) && h1.size == 1 && h2.size == 1
    ensures l1 != l2 && h1.Elems() == map[l1 := (x1, v1)] && h2.Elems() == map[l2 := (x2, v2)]
  {
    h1, h2 := TwoEmpty();
    l1 := InsertBeside(h1, h2, x1, v1);
    l2 := InsertBeside(h2, h1, x2, v2);
  }

  /** Merging the two single-element heaps gives one heap holding both
      elements under their own locators. */
  method InsertTwoAndMerge<V>(x1: int, v1: V, x2: int, v2: V)
    returns (h: WtLeftHeap<V>, l1: nat, l2: nat)
    ensures h.Valid() && h.size == 2
    ensures l1 != l2 && h.Elems() == map[l1 := (x1, v1), l2 := (x2, v2)]
  {
    var h2;
    h, h2, l1, l2 := TwoSingletons(x1, v1, x2, v2);
    h.MergeWith(h2);
    UnionSingleton(map[l1 := (x1, v1)], l2, (x2, v2));
  }

  /** A fresh store with one heap holding a single inserted element. */
  method NewSingletonHeap<V>(x: int, v: V) returns (h: WtLeftHeap<V>)
    ensures fresh(h) && fresh(h.store)
    ensures h.Valid() && h.size == 1 && h.root == 0 && h.tree == Node(0, Leaf, Leaf)
    ensures h.store.key == [x] && h.store.value == [v] && h.store.target == [0] && 0 in h.Elems()
  {
    var mem := new Store<V>();
    h := new WtLeftHeap(mem);
    var l := h.Insert(x, v);
    LeftistTree.MergeAbsent(Node(0, Leaf, Leaf), KeyOf(mem.key));
  }

  /** Two inserts with equal keys: merge keeps the first argument's root on a
      tie, so the element inserted first stays on top. */
  method InsertTie<V>(x: int, v1: V, v2: V) returns (h: WtLeftHeap<V>)
    ensures h.Valid() && h.size == 2
    ensures h.PeekKey() == Some(x) && h.PeekValue() == Some(v1)
  {
    h := NewSingletonHeap(x, v1);
    var l := h.Insert(x, v2);
    LeftistTree.MergeRoot(Node(0, Leaf, Leaf), Node(1, Leaf, Leaf), KeyOf(h.store.key));
  }

  /** The second of four inserts with keys 10, 5, 5, 5 goes left of the root. */
  lemma SecondInsertShape(key: seq<int>)
    requires |key| == 2 && key[0] == 10 && key[1] == 5
    ensures LeftistTree.Merge(Node(0, Leaf, Leaf), Node(1, Leaf, Leaf), KeyOf(key))
            == Node(0, Node(1, Leaf, Leaf), Leaf)
  {
  }

  /** The third goes right of the root. */
  lemma ThirdInsertShape(key: seq<int>)
    requires |key| == 3 && key[0] == 10 && key[1] == 5 && key[2] == 5
    ensures LeftistTree.Merge(Node(0, Node(1, Leaf, Leaf), Leaf), Node(2, Leaf, Leaf), KeyOf(key))
            == Node(0, Node(1, Leaf, Leaf), Node(2, Leaf, Leaf))
  {
  }

  /** The fourth merges into the third's node, which wins the tie, then
      outweighs the second and moves left. */
  lemma FourthInsertShape(key: seq<int>)
    requires |key| == 4 && key[0] == 10 && key[1] == 5 && key[2] == 5 && key[3] == 5
    ensures LeftistTree.Merge(Node(0, Node(1, Leaf, Leaf), Node(2, Leaf, Leaf)), Node(3, Leaf, Leaf), KeyOf(key))
            == Node(0, Node(2, Node(3, Leaf, Leaf), Leaf), Node(1, Leaf, Leaf))
  {
    var n1, n2, n3: Tree<nat> := Node(1, Leaf, Leaf), Node(2, Leaf, Leaf), Node(3, Leaf, Leaf);
    assert LeftistTree.Merge(n2, n3, KeyOf(key)) == Node(2, n3, Leaf);
    assert LeftistTree.Link(Node(0, n1, n2), n3, KeyOf(key)) == Node(0, Node(2, n3, Leaf), n1);
  }

  /** The first two inserts of FourInserts. */
  method TwoInserts<V>(a: V, b: V) returns (h: WtLeftHeap<V>)
    ensures fresh(h) && fresh(h.store)
    ensures h.Valid() && h.root == 0
    ensures h.tree == Node(0, Node(1, Leaf, Leaf), Leaf)
    ensures |h.store.key| == 2 && h.store.key[0] == 10 && h.store.key[1] == 5
    ensures 0 in h.Elems() && h.store.target[0] == 0
  {
    h := NewSingletonHeap(10, a);
    var l := h.Insert(5, b);
    SecondInsertShape(h.store.key);
  }

  /** The first three inserts of FourInserts. */
  method ThreeInserts<V>(a: V, b: V, c: V) returns (h: WtLeftHeap<V>)
    ensures fresh(h) && fresh(h.store)
    ensures h.Valid() && h.root == 0
    ensures h.tree == Node(0, Node(1, Leaf, Leaf), Node(2, Leaf, Leaf))
    ensures |h.store.key| == 3 && h.store.key[0] == 10 && h.store.key[1] == 5 && h.store.key[2] == 5
    ensures h.store.value[2] == c
    ensures 0 in h.Elems() && h.store.target[0] == 0
  {
    h := TwoInserts(a, b);
    var l := h.Insert(5, c);
    ThirdInsertShape(h.store.key);
  }

  /** Inserts (10, a), (5, b), (5, c) and (5, d) into a new heap. */
  method FourInserts<V>(a: V, b: V, c: V, d: V) returns (h: WtLeftHeap<V>)
    ensures fresh(h) && fresh(h.store)
    ensures h.Valid() && h.root == 0
    ensures h.tree == Node(0, Node(2, Node(3, Leaf, Leaf), Leaf), Node(1, Leaf, Leaf))
    ensures |h.store.key| == 4 && h.store.key[0] == 10 && h.store.key[1] == 5 && h.store.key[2] == 5
    ensures h.store.key[3] == 5 && h.store.value[2] == c
    ensures 0 in h.Elems() && h.store.target[0] == 0
  {
    h := ThreeInserts(a, b, c);
    var l := h.Insert(5, d);
    FourthInsertShape(h.store.key);
  }

  /** The walk of updateKey(0, 0) on the heap FourInserts builds: the root's new
      key 0 has no parent to beat, so it sinks; of the root's two children with
      key 5 the left one wins the tie, and then its only child. */
  lemma FourInsertsWalk(key: seq<int>, left: seq<int>, right: seq<int>, parent: seq<int>)
    requires |key| == 4 && key[0] == 0 && key[1] == 5 && key[2] == 5 && key[3] == 5
    requires |left| == 4 && |right| == 4 && |parent| == 4
    requires Linked(0, Node(0, Node(2, Node(3, Leaf, Leaf), Leaf), Node(1, Leaf, Leaf)), left, right, parent)
    ensures Walk(0, Node(0, Node(2, Node(3, Leaf, Leaf), Leaf), Node(1, Leaf, Leaf)), key,
                 left, right, parent, 0, 0) == [0, 2, 3]
  {
    var t: Tree<nat> := Node(0, Node(2, Node(3, Leaf, Leaf), Leaf), Node(1, Leaf, Leaf));
    assert left[0] == 2 && right[0] == 1 && left[2] == 3 && right[2] == Null;
    assert left[3] == Null && right[3] == Null && parent[0] == Null;
    assert InRange(t, 4) by {
      assert Members(t) == {0, 1, 2, 3};
    }
    assert DownWalk(0, t, key, left, right, parent, 3, 0) == [3];
    assert DownWalk(0, t, key, left, right, parent, 2, 0) == [2, 3];
  }

  /** updateKey(l, x) whose walk is already known: the node of `l` ends up
      holding what the walk's second node held. */
  method UpdateOnWalk<V>(h: WtLeftHeap<V>, l: nat, x: int, ghost p: seq<nat>)
    requires h.Valid() && l in h.Elems()
    requires p == Walk(h.root, h.tree, h.store.key[h.NodeOf(l) := x], h.store.left, h.store.right,
                       h.store.parent, h.NodeOf(l), x)
    requires |p| >= 2
    modifies h.store
    ensures h.Valid() && h.root == old(h.root)
    ensures h.store.key[old(h.NodeOf(l))] == old(h.store.key[h.NodeOf(l) := x])[p[1]]
    ensures h.store.value[old(h.NodeOf(l))] == old(h.store.value)[p[1]]
  {
    h.UpdateKey(l, x);
  }

  /** updateKey(0, 0) on the heap FourInserts builds: the root's element sinks
      two levels, and the root now holds the element the tie-winning left
      child held, the third one inserted. */
  method SinkFourRoot<V>(h: WtLeftHeap<V>, c: V)
    requires h.Valid() && h.root == 0
    requires h.tree == Node(0, Node(2, Node(3, Leaf, Leaf), Leaf), Node(1, Leaf, Leaf))
    requires |h.store.key| == 4 && h.store.key[0] == 10 && h.store.key[1] == 5 && h.store.key[2] == 5
    requires h.store.key[3] == 5 && h.store.value[2] == c
    requires 0 in h.Elems() && h.store.target[0] == 0
    modifies h.store
    ensures h.Valid() && h.root == 0 && h.store.key[0] == 5 && h.store.value[0] == c
  {
    ghost var c0 := h.NodeOf(0);
    ghost var key1 := h.store.key[c0 := 0];
    FourInsertsWalk(key1, h.store.left, h.store.right, h.store.parent);
    ghost var p := Walk(h.root, h.tree, key1, h.store.left, h.store.right, h.store.parent, c0, 0);
    assert |p| >= 2 && p[1] == 2 && c0 == 0;
    UpdateOnWalk(h, 0, 0, p);
  }

  /** The same, seen through peek: the top is now the third element inserted. */
  method UpdateKeyTie<V>(a: V, b: V, c: V, d: V) returns (h: WtLeftHeap<V>)
    ensures h.Valid() && h.PeekKey() == Some(5) && h.PeekValue() == Some(c)
  {
    h := FourInserts(a, b, c, d);
    SinkFourRoot(h, c);
  }
}
