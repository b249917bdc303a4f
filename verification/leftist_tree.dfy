/** The value-level view of a weight-biased leftist max-heap: a binary tree whose
    nodes carry a payload `data`, ordered by a key drawn from the payload.  This is
    the reference definition that the linked heap in module Heap refines.
    `Merge` and `Link` follow the source's `merge` branch for branch; `Weight` is
    its `weight` with absent children counting 0, and `List` is the dump that its
    `listHelper` appends. */
module LeftistTree {

  datatype Option<T> = None | Some(value: T)

  /** A subtree; `Leaf` stands for a null child. */
  datatype Tree<D> = Leaf | Node(data: D, left: Tree<D>, right: Tree<D>)

  /** The payloads of a tree, with multiplicity. */
  function Elements<D>(t: Tree<D>): multiset<D>
  {
    match t
    case Leaf => multiset{}
    case Node(d, l, r) => multiset{d} + Elements(l) + Elements(r)
  }

  /** The payloads of a tree, as a set. */
  function Members<D>(t: Tree<D>): set<D>
  {
    match t
    case Leaf => {}
    case Node(d, l, r) => {d} + Members(l) + Members(r)
  }

  /** Number of nodes of a subtree; an absent child weighs 0.  The source splits
      a present node four ways on which children are absent (that split is
      Heap.WtLeftHeap.Weight); counting an absent child as 0 folds the four into
      one case. */
  function Weight<D>(t: Tree<D>): (w: nat)
    ensures w == 0 <==> t.Leaf?
  {
    match t
    case Leaf => 0
    case Node(_, l, r) => 1 + Weight(l) + Weight(r)
  }

  /** The weight of a subtree is the number of nodes in it. */
  lemma {:induction false} WeightCounts<D>(t: Tree<D>)
    ensures Weight(t) == |Elements(t)|
  {
    match t
    case Leaf =>
    case Node(_, l, r) =>
      WeightCounts(l);
      WeightCounts(r);
  }

  /** In a tree that reaches no node twice, the weight is the number of distinct
      payloads. */
  lemma {:induction false} DistinctCounts<D>(t: Tree<D>)
    requires Distinct(t)
    ensures |Members(t)| == Weight(t)
  {
    match t
    case Leaf =>
    case Node(d, l, r) =>
      DistinctCounts(l);
      DistinctCounts(r);
      assert Members(t) == {d} + (Members(l) + Members(r));
  }

  /** Without its root, a tree that reaches no node twice has exactly the
      payloads of its two subtrees. */
  lemma RootMembers<D>(t: Tree<D>)
    requires Distinct(t) && t.Node?
    ensures Members(t.left) + Members(t.right) == Members(t) - {t.data}
  {
  }

  /** Max-heap order: no child's key exceeds its parent's. */
  ghost predicate HeapOrdered<D>(t: Tree<D>, key: D -> int)
  {
    t.Node? ==>
      (t.left.Node? ==> key(t.left.data) <= key(t.data)) &&
      (t.right.Node? ==> key(t.right.data) <= key(t.data)) &&
      HeapOrdered(t.left, key) && HeapOrdered(t.right, key)
  }

  /** The leftist property biased by weight: every left child weighs at least as much
      as its right sibling. */
  ghost predicate WeightBiased<D>(t: Tree<D>)
  {
    t.Node? ==>
      Weight(t.left) >= Weight(t.right) &&
      WeightBiased(t.left) && WeightBiased(t.right)
  }

  /** No payload occurs twice: no node is reachable along two paths. */
  ghost predicate Distinct<D>(t: Tree<D>)
  {
    t.Node? ==>
      Distinct(t.left) && Distinct(t.right) &&
      Members(t.left) !! Members(t.right) &&
      t.data !in Members(t.left) && t.data !in Members(t.right)
  }

  /** Unites two trees.  The root with the larger key wins, the first argument on a
      tie; the loser fills an empty left slot of the winner, or else is merged into
      the winner's right subtree, after which the children swap if the left one has
      become the lighter. */
  function Merge<D>(t1: Tree<D>, t2: Tree<D>, key: D -> int): (r: Tree<D>)
    ensures Members(r) == Members(t1) + Members(t2)
    ensures r.Node? ==> (t1.Node? && r.data == t1.data) || (t2.Node? && r.data == t2.data)
    decreases Weight(t1) + Weight(t2), 1
  {
    if t1.Leaf? then t2
    else if t2.Leaf? then t1
    else if key(t1.data) < key(t2.data) then Link(t2, t1, key)
    else Link(t1, t2, key)
  }

  /** The step of Merge once the winner `w` and the loser `lo` are known. */
  function Link<D>(w: Tree<D>, lo: Tree<D>, key: D -> int): (r: Tree<D>)
    requires w.Node?
    ensures r.Node? && r.data == w.data
    ensures Members(r) == Members(w) + Members(lo)
    decreases Weight(w) + Weight(lo), 0
  {
    if w.left.Leaf? then Node(w.data, lo, w.right)
    else
      var m := Merge(w.right, lo, key);
      if Weight(w.left) < Weight(m) then Node(w.data, m, w.left)
      else Node(w.data, w.left, m)
  }

  /** With an absent side, Merge hands back the other side unchanged. */
  lemma MergeAbsent<D>(t: Tree<D>, key: D -> int)
    ensures Merge(Leaf, t, key) == t && Merge(t, Leaf, key) == t
  {
  }

  /** The merged root is the larger of the two roots, and on equal keys the first
      argument's root. */
  lemma MergeRoot<D>(t1: Tree<D>, t2: Tree<D>, key: D -> int)
    requires t1.Node? && t2.Node?
    ensures Merge(t1, t2, key).Node?
    ensures key(t1.data) >= key(t2.data) ==> Merge(t1, t2, key).data == t1.data
    ensures key(t1.data) < key(t2.data) ==> Merge(t1, t2, key).data == t2.data
  {
  }

  /** In a heap-ordered tree the root's key bounds every key. */
  lemma {:induction false} RootIsMax<D>(t: Tree<D>, key: D -> int, d: D)
    requires HeapOrdered(t, key) && d in Members(t)
    ensures key(d) <= key(t.data)
  {
    if d != t.data {
      if d in Members(t.left) {
        RootIsMax(t.left, key, d);
      } else {
        RootIsMax(t.right, key, d);
      }
    }
  }

  /** Heap order only depends on the keys of the tree's own payloads. */
  lemma {:induction false} HeapOrderedSameKeys<D>(t: Tree<D>, key: D -> int, key': D -> int)
    requires forall d | d in Members(t) :: key(d) == key'(d)
    requires HeapOrdered(t, key)
    ensures HeapOrdered(t, key')
  {
    if t.Node? {
      HeapOrderedSameKeys(t.left, key, key');
      HeapOrderedSameKeys(t.right, key, key');
    }
  }

  /** Merging keeps every element of both trees, with multiplicity, and adds none. */
  lemma {:induction false} MergeElements<D>(t1: Tree<D>, t2: Tree<D>, key: D -> int)
    ensures Elements(Merge(t1, t2, key)) == Elements(t1) + Elements(t2)
    decreases Weight(t1) + Weight(t2), 1
  {
    if t1.Node? && t2.Node? {
      if key(t1.data) < key(t2.data) {
        LinkElements(t2, t1, key);
      } else {
        LinkElements(t1, t2, key);
      }
    }
  }

  lemma {:induction false} LinkElements<D>(w: Tree<D>, lo: Tree<D>, key: D -> int)
    requires w.Node?
    ensures Elements(Link(w, lo, key)) == Elements(w) + Elements(lo)
    decreases Weight(w) + Weight(lo), 0
  {
    if w.left.Leaf? {
      assert Link(w, lo, key) == Node(w.data, lo, w.right);
    } else {
      var m := Merge(w.right, lo, key);
      MergeElements(w.right, lo, key);
      if Weight(w.left) < Weight(m) {
        assert Link(w, lo, key) == Node(w.data, m, w.left);
      } else {
        assert Link(w, lo, key) == Node(w.data, w.left, m);
      }
    }
  }

  /** Merging two heap-ordered trees gives a heap-ordered tree. */
  lemma {:induction false} MergeHeapOrdered<D>(t1: Tree<D>, t2: Tree<D>, key: D -> int)
    requires HeapOrdered(t1, key) && HeapOrdered(t2, key)
    ensures HeapOrdered(Merge(t1, t2, key), key)
    decreases Weight(t1) + Weight(t2), 1
  {
    if t1.Node? && t2.Node? {
      if key(t1.data) < key(t2.data) {
        LinkHeapOrdered(t2, t1, key);
      } else {
        LinkHeapOrdered(t1, t2, key);
      }
    }
  }

  lemma {:induction false} LinkHeapOrdered<D>(w: Tree<D>, lo: Tree<D>, key: D -> int)
    requires w.Node? && lo.Node? && key(lo.data) <= key(w.data)
    requires HeapOrdered(w, key) && HeapOrdered(lo, key)
    ensures HeapOrdered(Link(w, lo, key), key)
    decreases Weight(w) + Weight(lo), 0
  {
    if w.left.Leaf? {
      assert Link(w, lo, key) == Node(w.data, lo, w.right);
    } else {
      var m := Merge(w.right, lo, key);
      MergeHeapOrdered(w.right, lo, key);
      if Weight(w.left) < Weight(m) {
        assert Link(w, lo, key) == Node(w.data, m, w.left);
      } else {
        assert Link(w, lo, key) == Node(w.data, w.left, m);
      }
    }
  }

  /** Merging two weight-biased trees gives a weight-biased tree. */
  lemma {:induction false} MergeWeightBiased<D>(t1: Tree<D>, t2: Tree<D>, key: D -> int)
    requires WeightBiased(t1) && WeightBiased(t2)
    ensures WeightBiased(Merge(t1, t2, key))
    decreases Weight(t1) + Weight(t2), 1
  {
    if t1.Node? && t2.Node? {
      if key(t1.data) < key(t2.data) {
        LinkWeightBiased(t2, t1, key);
      } else {
        LinkWeightBiased(t1, t2, key);
      }
    }
  }

  lemma {:induction false} LinkWeightBiased<D>(w: Tree<D>, lo: Tree<D>, key: D -> int)
    requires w.Node? && WeightBiased(w) && WeightBiased(lo)
    ensures WeightBiased(Link(w, lo, key))
    decreases Weight(w) + Weight(lo), 0
  {
    if w.left.Leaf? {
      assert Weight(w.right) == 0;
      assert Link(w, lo, key) == Node(w.data, lo, w.right);
    } else {
      var m := Merge(w.right, lo, key);
      MergeWeightBiased(w.right, lo, key);
      if Weight(w.left) < Weight(m) {
        assert Link(w, lo, key) == Node(w.data, m, w.left);
      } else {
        assert Link(w, lo, key) == Node(w.data, w.left, m);
      }
    }
  }

  /** Merging two trees that share no node gives a tree in which no node is shared. */
  lemma {:induction false} MergeDistinct<D>(t1: Tree<D>, t2: Tree<D>, key: D -> int)
    requires Distinct(t1) && Distinct(t2) && Members(t1) !! Members(t2)
    ensures Distinct(Merge(t1, t2, key))
    decreases Weight(t1) + Weight(t2), 1
  {
    if t1.Node? && t2.Node? {
      if key(t1.data) < key(t2.data) {
        LinkDistinct(t2, t1, key);
      } else {
        LinkDistinct(t1, t2, key);
      }
    }
  }

  lemma {:induction false} LinkDistinct<D>(w: Tree<D>, lo: Tree<D>, key: D -> int)
    requires w.Node? && Distinct(w) && Distinct(lo) && Members(w) !! Members(lo)
    ensures Distinct(Link(w, lo, key))
    decreases Weight(w) + Weight(lo), 0
  {
    if w.left.Leaf? {
      assert Link(w, lo, key) == Node(w.data, lo, w.right);
    } else {
      var m := Merge(w.right, lo, key);
      MergeDistinct(w.right, lo, key);
      if Weight(w.left) < Weight(m) {
        assert Link(w, lo, key) == Node(w.data, m, w.left);
      } else {
        assert Link(w, lo, key) == Node(w.data, w.left, m);
      }
    }
  }

  /** One token of the debug dump: `"[]"` for an absent child, or a node's payload
      with the weight of its subtree. */
  datatype Entry<D> = Absent | Present(data: D, weight: nat)

  /** The debug dump: right-to-left preorder, node first, then the right subtree,
      then the left subtree, with a token for every absent child.  A tree of n
      nodes dumps to 2n + 1 tokens, n + 1 of them absent markers. */
  function List<D>(t: Tree<D>): (r: seq<Entry<D>>)
    ensures |r| == 2 * Weight(t) + 1
  {
    match t
    case Leaf => [Absent]
    case Node(d, l, r) => [Present(d, Weight(t))] + List(r) + List(l)
  }

  /** Of the 2n + 1 tokens of a dump, n + 1 are absent markers, one per null
      child. */
  lemma {:induction false} ListAbsent<D>(t: Tree<D>)
    ensures multiset(List(t))[Absent] == Weight(t) + 1
  {
    match t
    case Leaf =>
    case Node(d, l, r) =>
      ListAbsent(l);
      ListAbsent(r);
      assert List(t) == [Present(d, Weight(t))] + List(r) + List(l);
  }

  /** Reads back one tree from the front of a dump, in the order List writes it. */
  function Parse<D>(s: seq<Entry<D>>): (r: Option<(Tree<D>, seq<Entry<D>>)>)
    ensures r.Some? ==> |r.value.1| < |s|
    decreases |s|
  {
    if s == [] then None
    else match s[0]
      case Absent => Some((Leaf, s[1..]))
      case Present(d, _) =>
        match Parse(s[1..])
        case None => None
        case Some((rt, rest)) =>
          match Parse(rest)
          case None => None
          case Some((lt, rest')) => Some((Node(d, lt, rt), rest'))
  }

  /** The dump loses nothing: parsing it gives back the tree, shape and payloads. */
  lemma {:induction false} ListParse<D>(t: Tree<D>, rest: seq<Entry<D>>)
    ensures Parse(List(t) + rest) == Some((t, rest))
  {
    match t
    case Leaf =>
      assert (List(t) + rest)[1..] == rest;
    case Node(d, l, r) =>
      var s := List(t) + rest;
      assert s[1..] == List(r) + (List(l) + rest);
      ListParse(r, List(l) + rest);
      ListParse(l, rest);
  }
}
