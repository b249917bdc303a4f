/** The memory that WtLeftHeap's `Node` and `Locator` objects live in, as an
    index-addressed arena.  Node `i` has fields `key[i]`, `value[i]`, `left[i]`,
    `right[i]`, `parent[i]` and `loc[i]` (the id of its locator); locator `j` has
    the field `target[j]` (the id of its node, `Locator.node` in the source).  A
    null reference is `Null`.  One store is shared by every heap, as the JVM heap
    is, so that a merge of two heaps can move nodes from one to the other.

    The ghost side describes a subtree hanging off a node by a `Tree<nat>` whose
    payloads are node ids. */
module NodeStore {
  import opened LeftistTree

  const Null: int := -1

  /** `n` is the root of a subtree whose left and right links have shape `t`. */
  ghost predicate Realizes(n: int, t: Tree<nat>, left: seq<int>, right: seq<int>)
    decreases t
  {
    match t
    case Leaf => n == Null
    case Node(id, l, r) =>
      n == id && id < |left| && id < |right| &&
      Realizes(left[id], l, left, right) && Realizes(right[id], r, left, right)
  }

  /** Every child's parent link names its structural parent (the root's is free). */
  ghost predicate Parented(t: Tree<nat>, parent: seq<int>)
  {
    t.Node? ==>
      (t.left.Node? ==> t.left.data < |parent| && parent[t.left.data] == t.data) &&
      (t.right.Node? ==> t.right.data < |parent| && parent[t.right.data] == t.data) &&
      Parented(t.left, parent) && Parented(t.right, parent)
  }

  /** All node ids of `t` address the arena. */
  ghost predicate InRange(t: Tree<nat>, n: nat)
  {
    forall id | id in Members(t) :: id < n
  }

  /** `loc` and `target` are inverse: every node's locator denotes that node. */
  ghost predicate Bijection(loc: seq<nat>, target: seq<nat>)
  {
    |loc| == |target| &&
    (forall i | 0 <= i < |loc| :: loc[i] < |target| && target[loc[i]] == i) &&
    (forall j | 0 <= j < |target| :: target[j] < |loc| && loc[target[j]] == j)
  }

  /** Outside the node ids `ids`, the three link arrays are as before. */
  ghost predicate LinksKeptOutside(ids: set<nat>,
                                   left: seq<int>, right: seq<int>, parent: seq<int>,
                                   left': seq<int>, right': seq<int>, parent': seq<int>)
  {
    |left| <= |left'| && |right| <= |right'| && |parent| <= |parent'| &&
    forall id | 0 <= id < |left| && id !in ids ::
      id < |right| && id < |parent| &&
      left'[id] == left[id] && right'[id] == right[id] && parent'[id] == parent[id]
  }

  /** The key of a node id, as the ordering function the tree lemmas expect. */
  function KeyOf(key: seq<int>): nat -> int
  {
    (id: nat) => if id < |key| then key[id] else 0
  }

  /** The (key, value) tree that the node ids of `t` hold. */
  ghost function Label<V>(t: Tree<nat>, key: seq<int>, value: seq<V>): (r: Tree<(int, V)>)
    requires InRange(t, |key|) && |value| == |key|
    ensures Weight(r) == Weight(t)
  {
    match t
    case Leaf => Leaf
    case Node(id, l, r) =>
      assert id in Members(t);
      Node((key[id], value[id]), Label(l, key, value), Label(r, key, value))
  }

  /** The locators of the nodes of `t`. */
  ghost function Locators(t: Tree<nat>, loc: seq<nat>): set<nat>
    requires InRange(t, |loc|)
  {
    set id | id in Members(t) :: loc[id]
  }

  /** The elements a subtree holds, by the locator that denotes each of them. */
  ghost function Contents<V>(t: Tree<nat>, key: seq<int>, value: seq<V>, loc: seq<nat>, target: seq<nat>)
    : map<nat, (int, V)>
    requires |key| == |value| == |loc| && Bijection(loc, target) && InRange(t, |loc|)
  {
    map l | l in Locators(t, loc) :: (key[target[l]], value[target[l]])
  }

  /** Which node ids are below which: 0 at the root. */
  ghost function Depth(t: Tree<nat>, id: nat): nat
    requires id in Members(t)
  {
    if t.data == id then 0
    else if id in Members(t.left) then 1 + Depth(t.left, id)
    else 1 + Depth(t.right, id)
  }

  /** The edge from `p` down to `c` respects max-heap order (a null child always does). */
  ghost predicate OrderedEdge(key: seq<int>, p: int, c: int)
  {
    c == Null || (0 <= p < |key| && 0 <= c < |key| && key[c] <= key[p])
  }

  /** Max-heap order on the links of the nodes of `t`, except the edges leaving
      `skipParent` and the edge entering `skipChild`. */
  ghost predicate EdgesOrdered(t: Tree<nat>, key: seq<int>, left: seq<int>, right: seq<int>,
                               skipParent: int, skipChild: int)
  {
    forall id | id in Members(t) ::
      id < |left| && id < |right| &&
      (id != skipParent && left[id] != skipChild ==> OrderedEdge(key, id, left[id])) &&
      (id != skipParent && right[id] != skipChild ==> OrderedEdge(key, id, right[id]))
  }

  /** The invariant of a whole heap whose root node is `root` and which counts
      `size` elements: a well-linked max-heap-ordered, weight-biased tree that owns
      each of its nodes once, and whose root has no parent. */
  ghost predicate Shaped(root: int, t: Tree<nat>, size: int, key: seq<int>,
                         left: seq<int>, right: seq<int>, parent: seq<int>)
  {
    Realizes(root, t, left, right) && InRange(t, |key|) && Parented(t, parent) && Distinct(t) &&
    (root != Null ==> 0 <= root < |parent| && parent[root] == Null) &&
    HeapOrdered(t, KeyOf(key)) && WeightBiased(t) && size == Weight(t)
  }

  // ---------------------------------------------------------------------------
  // Facts about subtrees laid out in the arena

  lemma {:induction false} RealizesInRange(n: int, t: Tree<nat>, left: seq<int>, right: seq<int>)
    requires Realizes(n, t, left, right)
    ensures InRange(t, |left|) && InRange(t, |right|)
    decreases t
  {
    if t.Node? {
      RealizesInRange(left[t.data], t.left, left, right);
      RealizesInRange(right[t.data], t.right, left, right);
    }
  }

  /** The children of an in-range subtree are in range, and so is its root. */
  lemma InRangeChildren(t: Tree<nat>, n: nat)
    requires t.Node? && InRange(t, n)
    ensures t.data < n && InRange(t.left, n) && InRange(t.right, n)
  {
    assert t.data in Members(t);
    forall id | id in Members(t.left) + Members(t.right) ensures id < n {
      assert id in Members(t);
    }
  }

  /** A subtree stays in place when the links of its own nodes are untouched. */
  lemma {:induction false} RealizesFrame(n: int, t: Tree<nat>, left: seq<int>, right: seq<int>,
                                         left': seq<int>, right': seq<int>)
    requires Realizes(n, t, left, right)
    requires forall id | id in Members(t) ::
      id < |left| && id < |right| && id < |left'| && id < |right'| &&
      left'[id] == left[id] && right'[id] == right[id]
    ensures Realizes(n, t, left', right')
    decreases t
  {
    if t.Node? {
      RealizesFrame(left[t.data], t.left, left, right, left', right');
      RealizesFrame(right[t.data], t.right, left, right, left', right');
    }
  }

  /** Parent links of a subtree survive when no non-root node's parent changes. */
  lemma {:induction false} ParentedFrame(t: Tree<nat>, parent: seq<int>, parent': seq<int>)
    requires Parented(t, parent)
    requires t.Node? ==> forall id | id in Members(t.left) + Members(t.right) ::
      id < |parent| && id < |parent'| && parent'[id] == parent[id]
    ensures Parented(t, parent')
  {
    if t.Node? {
      ParentedFrame(t.left, parent, parent');
      ParentedFrame(t.right, parent, parent');
    }
  }

  /** The link facts of a well-formed subtree, node by node: every child link
      leads to a node of the subtree whose parent link leads back, and every node
      but the root has a parent in the subtree that holds it as a child. */
  lemma {:induction false} TreeLinks(n: int, t: Tree<nat>, left: seq<int>, right: seq<int>, parent: seq<int>)
    requires Realizes(n, t, left, right) && Parented(t, parent) && Distinct(t)
    ensures forall id | id in Members(t) ::
      id < |left| && id < |right| &&
      (left[id] != Null ==> left[id] in Members(t) && 0 <= left[id] < |parent| && parent[left[id]] == id) &&
      (right[id] != Null ==> right[id] in Members(t) && 0 <= right[id] < |parent| && parent[right[id]] == id)
    ensures forall id | id in Members(t) && id != n ::
      id < |parent| && parent[id] in Members(t) && 0 <= parent[id] < |left| &&
      (left[parent[id]] == id || right[parent[id]] == id)
    decreases t
  {
    if t.Node? {
      TreeLinks(left[t.data], t.left, left, right, parent);
      TreeLinks(right[t.data], t.right, left, right, parent);
    }
  }

  /** Parents sit strictly higher than their children, and nothing sits deeper
      than the subtree has nodes. */
  lemma {:induction false} DepthLinks(n: int, t: Tree<nat>, left: seq<int>, right: seq<int>, parent: seq<int>)
    requires Realizes(n, t, left, right) && Parented(t, parent) && Distinct(t)
    ensures forall id | id in Members(t) :: Depth(t, id) < Weight(t)
    ensures forall id | id in Members(t) && id != n ::
      id < |parent| && parent[id] in Members(t) && Depth(t, parent[id]) < Depth(t, id)
    decreases t
  {
    TreeLinks(n, t, left, right, parent);
    if t.Node? {
      var l, r := t.left, t.right;
      DepthLinks(left[t.data], l, left, right, parent);
      DepthLinks(right[t.data], r, left, right, parent);
      TreeLinks(left[t.data], l, left, right, parent);
      TreeLinks(right[t.data], r, left, right, parent);
      forall id | id in Members(t)
        ensures Depth(t, id) < Weight(t)
      {
        if id in Members(l) && id != t.data {
          assert Depth(t, id) == 1 + Depth(l, id);
        } else if id in Members(r) && id != t.data {
          assert Depth(t, id) == 1 + Depth(r, id);
        }
      }
      forall id | id in Members(t) && id != n
        ensures Depth(t, parent[id]) < Depth(t, id)
      {
        if id in Members(l) {
          if id != l.data {
            assert parent[id] in Members(l) && parent[id] != t.data;
          }
        } else {
          assert id in Members(r);
          if id != r.data {
            assert parent[id] in Members(r) && parent[id] != t.data;
          }
        }
      }
    }
  }

  /** Chains two link frames into one over a larger set of nodes. */
  lemma KeptOutsideTrans(ids1: set<nat>, ids2: set<nat>, ids: set<nat>,
                         left0: seq<int>, right0: seq<int>, parent0: seq<int>,
                         left1: seq<int>, right1: seq<int>, parent1: seq<int>,
                         left2: seq<int>, right2: seq<int>, parent2: seq<int>)
    requires LinksKeptOutside(ids1, left0, right0, parent0, left1, right1, parent1)
    requires LinksKeptOutside(ids2, left1, right1, parent1, left2, right2, parent2)
    requires ids1 <= ids && ids2 <= ids
    ensures LinksKeptOutside(ids, left0, right0, parent0, left2, right2, parent2)
  {
  }

  /** Hanging the subtree `tb` into the empty left slot of the root `a` of `ta`
      (the first branch of the source's merge step). */
  lemma AttachLeft(a: nat, ta: Tree<nat>, b: nat, tb: Tree<nat>,
                   left: seq<int>, right: seq<int>, parent: seq<int>)
    requires |left| == |right| == |parent| && a < |left| && b < |left|
    requires Realizes(a, ta, left, right) && Parented(ta, parent) && Distinct(ta) && left[a] == Null
    requires Realizes(b, tb, left, right) && Parented(tb, parent) && Distinct(tb)
    requires Members(ta) !! Members(tb)
    ensures ta.Node? && ta.data == a && ta.left == Leaf && tb.Node? && tb.data == b
    ensures Realizes(a, Node(a, tb, ta.right), left[a := b], right)
    ensures Parented(Node(a, tb, ta.right), parent[b := a])
    ensures LinksKeptOutside(Members(ta) + Members(tb), left, right, parent, left[a := b], right, parent[b := a])
  {
    assert a in Members(ta) && b in Members(tb);
    RealizesInRange(b, tb, left, right);
    RealizesInRange(right[a], ta.right, left, right);
    RealizesFrame(b, tb, left, right, left[a := b], right);
    RealizesFrame(right[a], ta.right, left, right, left[a := b], right);
    ParentedFrame(tb, parent, parent[b := a]);
    ParentedFrame(ta.right, parent, parent[b := a]);
  }

  /** Hanging the subtree `mt` as the right child of `a`, whose left subtree is
      `lt`, and then, in the second form, exchanging the two children (the second
      branch of the source's merge step). */
  lemma AttachRight(a: nat, lt: Tree<nat>, m: nat, mt: Tree<nat>,
                    left: seq<int>, right: seq<int>, parent: seq<int>)
    requires |left| == |right| == |parent| && a < |left| && m < |left|
    requires Realizes(left[a], lt, left, right) && Parented(lt, parent) && Distinct(lt) && lt.Node?
    requires lt.data < |parent| && parent[lt.data] == a
    requires Realizes(m, mt, left, right) && Parented(mt, parent) && Distinct(mt)
    requires Members(lt) !! Members(mt) && a !in Members(lt) && a !in Members(mt)
    ensures mt.Node? && mt.data == m
    ensures Realizes(left[a], lt, left, right[a := m]) && Realizes(m, mt, left, right[a := m])
    ensures Realizes(a, Node(a, lt, mt), left, right[a := m])
    ensures Realizes(a, Node(a, mt, lt), left[a := m], right[a := m][a := left[a]])
    ensures Parented(Node(a, lt, mt), parent[m := a]) && Parented(Node(a, mt, lt), parent[m := a])
    ensures LinksKeptOutside({a, m}, left, right, parent, left, right[a := m], parent[m := a])
    ensures LinksKeptOutside({a, m}, left, right, parent, left[a := m], right[a := m][a := left[a]], parent[m := a])
  {
    assert m in Members(mt);
    RealizesInRange(left[a], lt, left, right);
    RealizesInRange(m, mt, left, right);
    RealizesFrame(left[a], lt, left, right, left, right[a := m]);
    RealizesFrame(m, mt, left, right, left, right[a := m]);
    RealizesFrame(left[a], lt, left, right, left[a := m], right[a := m][a := left[a]]);
    RealizesFrame(m, mt, left, right, left[a := m], right[a := m][a := left[a]]);
    ParentedFrame(lt, parent, parent[m := a]);
    ParentedFrame(mt, parent, parent[m := a]);
  }

  /** A subtree none of whose nodes lies in the relinked set `ids` keeps its shape
      and its parent links, its root's parent link included. */
  lemma {:induction false} SubtreeKept(n: int, t: Tree<nat>, ids: set<nat>,
                                        left0: seq<int>, right0: seq<int>, parent0: seq<int>,
                                        left1: seq<int>, right1: seq<int>, parent1: seq<int>)
    requires |left0| == |right0| == |parent0|
    requires Realizes(n, t, left0, right0) && Parented(t, parent0) && Members(t) !! ids
    requires LinksKeptOutside(ids, left0, right0, parent0, left1, right1, parent1)
    ensures Realizes(n, t, left1, right1) && Parented(t, parent1)
    ensures t.Node? ==> t.data < |parent0| && parent1[t.data] == parent0[t.data]
    decreases t
  {
    if t.Node? {
      assert t.data in Members(t) && t.data !in ids;
      SubtreeKept(left0[t.data], t.left, ids, left0, right0, parent0, left1, right1, parent1);
      SubtreeKept(right0[t.data], t.right, ids, left0, right0, parent0, left1, right1, parent1);
    }
  }

  /** The second branch of the source's merge step, after `tb` has been merged
      into the right subtree of `a` giving `mt` at node `m`: hanging `mt` as the
      right child of `a`, and exchanging the children when the left one is the
      lighter, lays out Link(ta, tb) and relinks nothing outside ta and tb. */
  lemma LinkRight(a: nat, ta: Tree<nat>, tb: Tree<nat>, m: int, key: seq<int>,
                  left0: seq<int>, right0: seq<int>, parent0: seq<int>,
                  left1: seq<int>, right1: seq<int>, parent1: seq<int>)
    requires |left0| == |right0| == |parent0| && |left1| == |right1| == |parent1| == |left0|
    requires Realizes(a, ta, left0, right0) && Parented(ta, parent0) && Distinct(ta)
    requires Distinct(tb) && Members(ta) !! Members(tb) && a < |left0| && left0[a] != Null
    requires Realizes(m, Merge(ta.right, tb, KeyOf(key)), left1, right1)
    requires Parented(Merge(ta.right, tb, KeyOf(key)), parent1)
    requires tb.Node?
    requires LinksKeptOutside(Members(ta.right) + Members(tb), left0, right0, parent0, left1, right1, parent1)
    ensures ta.Node? && ta.left.Node? && 0 <= m < |left1| && left1[a] == left0[a]
    ensures Realizes(left1[a], ta.left, left1, right1[a := m])
    ensures Realizes(m, Merge(ta.right, tb, KeyOf(key)), left1, right1[a := m])
    ensures Weight(ta.left) < Weight(Merge(ta.right, tb, KeyOf(key))) ==>
      Realizes(a, Link(ta, tb, KeyOf(key)), left1[a := m], right1[a := m][a := left1[a]]) &&
      LinksKeptOutside(Members(ta) + Members(tb), left0, right0, parent0,
                       left1[a := m], right1[a := m][a := left1[a]], parent1[m := a])
    ensures Weight(ta.left) >= Weight(Merge(ta.right, tb, KeyOf(key))) ==>
      Realizes(a, Link(ta, tb, KeyOf(key)), left1, right1[a := m]) &&
      LinksKeptOutside(Members(ta) + Members(tb), left0, right0, parent0,
                       left1, right1[a := m], parent1[m := a])
    ensures Parented(Link(ta, tb, KeyOf(key)), parent1[m := a])
    ensures parent1[m := a][a] == parent0[a]
  {
    var mt := Merge(ta.right, tb, KeyOf(key));
    assert a in Members(ta);
    MergeDistinct(ta.right, tb, KeyOf(key));
    SubtreeKept(left0[a], ta.left, Members(ta.right) + Members(tb),
                left0, right0, parent0, left1, right1, parent1);
    assert mt.Node? && mt.data in Members(mt);
    AttachRight(a, ta.left, m, mt, left1, right1, parent1);
    KeptOutsideTrans(Members(ta.right) + Members(tb), {a, m}, Members(ta) + Members(tb),
                     left0, right0, parent0, left1, right1, parent1,
                     left1, right1[a := m], parent1[m := a]);
    KeptOutsideTrans(Members(ta.right) + Members(tb), {a, m}, Members(ta) + Members(tb),
                     left0, right0, parent0, left1, right1, parent1,
                     left1[a := m], right1[a := m][a := left1[a]], parent1[m := a]);
    if Weight(ta.left) < Weight(mt) {
      assert Link(ta, tb, KeyOf(key)) == Node(a, mt, ta.left);
    } else {
      assert Link(ta, tb, KeyOf(key)) == Node(a, ta.left, mt);
    }
  }

  /** Rewriting the parent link of a node that is no non-root node of `t` keeps
      `t`'s parent links. */
  lemma {:induction false} ParentedSet(t: Tree<nat>, parent: seq<int>, x: nat, p: int)
    requires Parented(t, parent) && x < |parent|
    requires t.Node? ==> x !in Members(t.left) && x !in Members(t.right)
    ensures Parented(t, parent[x := p])
  {
    if t.Node? {
      if t.left.Node? {
        assert t.left.data in Members(t.left);
      }
      if t.right.Node? {
        assert t.right.data in Members(t.right);
      }
      ParentedSet(t.left, parent, x, p);
      ParentedSet(t.right, parent, x, p);
    }
  }

  /** Clearing the parent links of the root's children (as extract does before
      merging them) leaves two whole heaps that share no node and hold all the
      nodes but the root. */
  lemma DetachShaped(n: int, t: Tree<nat>, size: int, key: seq<int>,
                     left: seq<int>, right: seq<int>, parent: seq<int>)
    requires |key| == |left| == |right| == |parent|
    requires Shaped(n, t, size, key, left, right, parent) && t.Node?
    ensures n == t.data && 0 <= n < |left|
    ensures left[n] != Null ==> 0 <= left[n] < |parent|
    ensures right[n] != Null ==> 0 <= right[n] < |parent|
    ensures Members(t.left) !! Members(t.right) && Members(t.left) + Members(t.right) <= Members(t)
    ensures var p1 := if right[n] != Null then parent[right[n] := Null] else parent;
            var p2 := if left[n] != Null then p1[left[n] := Null] else p1;
            Shaped(left[n], t.left, Weight(t.left), key, left, right, p2) &&
            Shaped(right[n], t.right, Weight(t.right), key, left, right, p2) &&
            size - 1 == Weight(t.left) + Weight(t.right) &&
            LinksKeptOutside(Members(t), left, right, parent, left, right, p2)
  {
    assert t.data in Members(t);
    InRangeChildren(t, |key|);
    var l, r := left[n], right[n];
    assert Realizes(l, t.left, left, right) && Realizes(r, t.right, left, right);
    assert Distinct(t.left) && Distinct(t.right);
    var p1 := parent;
    if r != Null {
      assert r == t.right.data && r in Members(t.right) && r in Members(t);
      ParentedSet(t.left, p1, r, Null);
      ParentedSet(t.right, p1, r, Null);
      p1 := p1[r := Null];
    }
    var p2 := p1;
    if l != Null {
      assert l == t.left.data && l in Members(t.left) && l in Members(t);
      ParentedSet(t.left, p2, l, Null);
      ParentedSet(t.right, p2, l, Null);
      p2 := p2[l := Null];
    }
  }

  /** The heap that merging two disjoint whole heaps lays out is a whole heap
      counting the elements of both. */
  lemma ShapedMerge(r1: int, t1: Tree<nat>, s1: int, r2: int, t2: Tree<nat>, s2: int, key: seq<int>,
                    left0: seq<int>, right0: seq<int>, parent0: seq<int>,
                    r: int, left1: seq<int>, right1: seq<int>, parent1: seq<int>)
    requires Shaped(r1, t1, s1, key, left0, right0, parent0)
    requires Shaped(r2, t2, s2, key, left0, right0, parent0)
    requires Members(t1) !! Members(t2) && (r == r1 || r == r2)
    requires Realizes(r, Merge(t1, t2, KeyOf(key)), left1, right1)
    requires Parented(Merge(t1, t2, KeyOf(key)), parent1)
    requires r != Null ==> 0 <= r < |parent0| && r < |parent1| && parent1[r] == parent0[r]
    ensures Shaped(r, Merge(t1, t2, KeyOf(key)), s1 + s2, key, left1, right1, parent1)
  {
    var t := Merge(t1, t2, KeyOf(key));
    MergeHeapOrdered(t1, t2, KeyOf(key));
    MergeWeightBiased(t1, t2, KeyOf(key));
    MergeDistinct(t1, t2, KeyOf(key));
    MergeElements(t1, t2, KeyOf(key));
    WeightCounts(t1);
    WeightCounts(t2);
    WeightCounts(t);
  }

  /** The node-by-node order on links is the recursive heap order of the tree. */
  lemma {:induction false} EdgesOrderedIsHeapOrdered(n: int, t: Tree<nat>, key: seq<int>,
                                                       left: seq<int>, right: seq<int>)
    requires Realizes(n, t, left, right) && InRange(t, |key|)
    ensures EdgesOrdered(t, key, left, right, Null, Null) <==> HeapOrdered(t, KeyOf(key))
    decreases t
  {
    if t.Node? {
      InRangeChildren(t, |key|);
      EdgesOrderedIsHeapOrdered(left[t.data], t.left, key, left, right);
      EdgesOrderedIsHeapOrdered(right[t.data], t.right, key, left, right);
      RealizesInRange(n, t, left, right);
      if EdgesOrdered(t, key, left, right, Null, Null) {
        assert EdgesOrdered(t.left, key, left, right, Null, Null);
        assert EdgesOrdered(t.right, key, left, right, Null, Null);
        assert t.data in Members(t);
      }
    }
  }

  // ---------------------------------------------------------------------------
  // How the elements of a subtree change

  /** The locators of a tree whose nodes are those of two others. */
  lemma LocatorsUnion(t: Tree<nat>, t1: Tree<nat>, t2: Tree<nat>, loc: seq<nat>)
    requires InRange(t1, |loc|) && InRange(t2, |loc|)
    requires Members(t) == Members(t1) + Members(t2)
    ensures InRange(t, |loc|)
    ensures Locators(t, loc) == Locators(t1, loc) + Locators(t2, loc)
  {
    forall l | l in Locators(t, loc) ensures l in Locators(t1, loc) + Locators(t2, loc) {
      var id :| id in Members(t) && l == loc[id];
      if id in Members(t1) {
        assert l in Locators(t1, loc);
      } else {
        assert l in Locators(t2, loc);
      }
    }
    forall l | l in Locators(t1, loc) + Locators(t2, loc) ensures l in Locators(t, loc) {
      if l in Locators(t1, loc) {
        var id :| id in Members(t1) && l == loc[id];
        assert id in Members(t);
      } else {
        var id :| id in Members(t2) && l == loc[id];
        assert id in Members(t);
      }
    }
  }

  /** Contents depends only on which nodes the tree has. */
  lemma ContentsUnion<V>(t: Tree<nat>, t1: Tree<nat>, t2: Tree<nat>,
                         key: seq<int>, value: seq<V>, loc: seq<nat>, target: seq<nat>)
    requires |key| == |value| == |loc| && Bijection(loc, target)
    requires InRange(t1, |loc|) && InRange(t2, |loc|)
    requires Members(t) == Members(t1) + Members(t2)
    ensures InRange(t, |loc|)
    ensures Contents(t, key, value, loc, target) ==
            Contents(t1, key, value, loc, target) + Contents(t2, key, value, loc, target)
  {
    LocatorsUnion(t, t1, t2, loc);
  }

  /** Subtrees with no node in common have no locator in common. */
  lemma LocatorsDisjoint(t1: Tree<nat>, t2: Tree<nat>, loc: seq<nat>, target: seq<nat>)
    requires Bijection(loc, target) && InRange(t1, |loc|) && InRange(t2, |loc|)
    requires Members(t1) !! Members(t2)
    ensures Locators(t1, loc) !! Locators(t2, loc)
  {
    forall l | l in Locators(t1, loc) ensures l !in Locators(t2, loc) {
      var id :| id in Members(t1) && l == loc[id];
      assert target[l] == id;
    }
  }

  /** Merging two subtrees that share no node gives the elements of both, and
      they share no locator. */
  lemma MergeContents<V>(t1: Tree<nat>, t2: Tree<nat>,
                         key: seq<int>, value: seq<V>, loc: seq<nat>, target: seq<nat>)
    requires |key| == |value| == |loc| && Bijection(loc, target)
    requires InRange(t1, |loc|) && InRange(t2, |loc|) && Members(t1) !! Members(t2)
    ensures InRange(Merge(t1, t2, KeyOf(key)), |loc|)
    ensures Locators(t1, loc) !! Locators(t2, loc)
    ensures Contents(Merge(t1, t2, KeyOf(key)), key, value, loc, target) ==
            Contents(t1, key, value, loc, target) + Contents(t2, key, value, loc, target)
  {
    LocatorsDisjoint(t1, t2, loc, target);
    ContentsUnion(Merge(t1, t2, KeyOf(key)), t1, t2, key, value, loc, target);
  }

  /** Appending to the key array keeps a subtree heap-ordered. */
  lemma HeapOrderedGrow(t: Tree<nat>, key: seq<int>, key': seq<int>)
    requires InRange(t, |key|) && |key| <= |key'| && key'[..|key|] == key
    requires HeapOrdered(t, KeyOf(key))
    ensures HeapOrdered(t, KeyOf(key'))
  {
    forall d | d in Members(t) ensures KeyOf(key)(d) == KeyOf(key')(d) {
      assert key'[..|key|][d] == key[d];
    }
    HeapOrderedSameKeys(t, KeyOf(key), KeyOf(key'));
  }

  /** Adding a one-entry map is updating at its key. */
  lemma UnionSingleton<K, E>(m: map<K, E>, k: K, e: E)
    ensures m + map[k := e] == m[k := e]
  {
  }

  /** Appending a fresh, unlinked node `n` holding (x, v), with a fresh locator
      `n` denoting it, leaves an existing heap-shaped subtree as it was and makes
      `n` a one-node heap of its own. */
  lemma NewSingleton(r: int, t: Tree<nat>, size: int, key: seq<int>,
                     left: seq<int>, right: seq<int>, parent: seq<int>, x: int)
    requires |key| == |left| == |right| == |parent|
    requires Shaped(r, t, size, key, left, right, parent)
    ensures InRange(t, |key|) && |key| !in Members(t)
    ensures Members(t) !! Members(Node(|key|, Leaf, Leaf))
    ensures Shaped(r, t, size, key + [x], left + [Null], right + [Null], parent + [Null])
    ensures Shaped(|key|, Node(|key|, Leaf, Leaf), 1, key + [x], left + [Null], right + [Null], parent + [Null])
    ensures LinksKeptOutside({}, left, right, parent, left + [Null], right + [Null], parent + [Null])
  {
    var n: nat := |key|;
    RealizesInRange(r, t, left, right);
    SubtreeKept(r, t, {}, left, right, parent, left + [Null], right + [Null], parent + [Null]);
    HeapOrderedGrow(t, key, key + [x]);
    assert Members(Node(n, Leaf, Leaf)) == {n};
  }

  /** The elements of the arena after the same append: those of the existing
      subtree are kept, and the new node alone holds (x, v) under locator `n`. */
  lemma NewSingletonContents<V>(t: Tree<nat>, key: seq<int>, value: seq<V>, loc: seq<nat>, target: seq<nat>,
                                x: int, v: V)
    requires |key| == |value| == |loc| && Bijection(loc, target) && InRange(t, |key|)
    ensures InRange(t, |key| + 1) && InRange(Node(|key|, Leaf, Leaf), |key| + 1)
    ensures Bijection(loc + [|key|], target + [|key|])
    ensures Contents(t, key + [x], value + [v], loc + [|key|], target + [|key|]) ==
            Contents(t, key, value, loc, target)
    ensures |key| !in Contents(t, key, value, loc, target)
    ensures Contents(Node(|key|, Leaf, Leaf), key + [x], value + [v], loc + [|key|], target + [|key|]) ==
            map[|key| := (x, v)]
  {
    var n: nat := |key|;
    var single: Tree<nat> := Node(n, Leaf, Leaf);
    assert Bijection(loc + [n], target + [n]);
    assert (loc + [n])[..|loc|] == loc && (target + [n])[..|target|] == target;
    assert (key + [x])[..|key|] == key && (value + [v])[..|value|] == value;
    ContentsGrow(t, key, value, loc, target, key + [x], value + [v], loc + [n], target + [n]);
    forall l | l in Locators(t, loc) ensures l != n {
      var id :| id in Members(t) && l == loc[id];
    }
    assert Members(single) == {n};
    assert InRange(single, |loc + [n]|);
    forall l | l in Locators(single, loc + [n]) ensures l == n {
      var id :| id in Members(single) && l == (loc + [n])[id];
    }
    assert n in Locators(single, loc + [n]) by {
      assert n in Members(single) && (loc + [n])[n] == n;
    }
    var c := Contents(single, key + [x], value + [v], loc + [n], target + [n]);
    assert c.Keys == {n};
    assert c[n] == (x, v) by {
      assert (target + [n])[n] == n;
    }
    assert c == map[n := (x, v)];
  }

  /** Removing the root of a subtree removes exactly the root's locator. */
  lemma ContentsRemoveRoot<V>(t: Tree<nat>, t': Tree<nat>,
                              key: seq<int>, value: seq<V>, loc: seq<nat>, target: seq<nat>)
    requires |key| == |value| == |loc| && Bijection(loc, target)
    requires t.Node? && Distinct(t) && InRange(t, |loc|)
    requires Members(t') == Members(t.left) + Members(t.right)
    ensures InRange(t', |loc|) && t.data < |loc|
    ensures Contents(t', key, value, loc, target) ==
            Contents(t, key, value, loc, target) - {loc[t.data]}
  {
    var top := loc[t.data];
    forall id | id in Members(t')
      ensures loc[id] != top
    {
      assert target[loc[id]] == id;
    }
    assert Locators(t', loc) == Locators(t, loc) - {top};
  }

  /** Growing the arena leaves the elements of an existing subtree alone. */
  lemma ContentsGrow<V>(t: Tree<nat>, key: seq<int>, value: seq<V>, loc: seq<nat>, target: seq<nat>,
                        key': seq<int>, value': seq<V>, loc': seq<nat>, target': seq<nat>)
    requires |key| == |value| == |loc| && Bijection(loc, target) && InRange(t, |loc|)
    requires |key'| == |value'| == |loc'| && Bijection(loc', target')
    requires |loc| <= |loc'| && key'[..|key|] == key && value'[..|value|] == value
    requires loc'[..|loc|] == loc && target'[..|target|] == target
    ensures InRange(t, |loc'|)
    ensures Contents(t, key', value', loc', target') == Contents(t, key, value, loc, target)
  {
    assert Locators(t, loc') == Locators(t, loc) by {
      forall id | id in Members(t) ensures loc'[id] == loc[id] {
        assert loc'[..|loc|][id] == loc[id];
      }
    }
    forall l | l in Locators(t, loc)
      ensures target'[l] == target[l] && key'[target[l]] == key[target[l]] && value'[target[l]] == value[target[l]]
    {
      assert target'[..|target|][l] == target[l];
      assert key'[..|key|][target[l]] == key[target[l]];
      assert value'[..|value|][target[l]] == value[target[l]];
    }
  }

  /** A locator of a subtree's contents denotes one of its nodes. */
  lemma LocatorNode<V>(t: Tree<nat>, key: seq<int>, value: seq<V>, loc: seq<nat>, target: seq<nat>, l: nat)
    requires |key| == |value| == |loc| && Bijection(loc, target) && InRange(t, |loc|)
    requires l in Contents(t, key, value, loc, target)
    ensures l < |target| && target[l] in Members(t) && target[l] < |key|
  {
    var id :| id in Members(t) && l == loc[id];
    assert target[loc[id]] == id;
  }

  /** A new key written into the node a locator denotes changes that element's key
      and nothing else. */
  lemma ContentsSetKey<V>(t: Tree<nat>, key: seq<int>, value: seq<V>, loc: seq<nat>, target: seq<nat>,
                          l: nat, x: int)
    requires |key| == |value| == |loc| && Bijection(loc, target) && InRange(t, |loc|)
    requires l in Contents(t, key, value, loc, target)
    ensures target[l] < |key| && target[l] in Members(t)
    ensures Contents(t, key[target[l] := x], value, loc, target) ==
            Contents(t, key, value, loc, target)[l := (x, value[target[l]])]
  {
    var c := target[l];
    var id :| id in Members(t) && l == loc[id];
    assert target[loc[id]] == id;
    forall l' | l' in Locators(t, loc) && l' != l
      ensures target[l'] != c
    {
      assert loc[target[l']] == l';
    }
  }

  /** Exchanging the locators of two nodes of a subtree keeps its set of locators. */
  lemma LocatorsExchange(t: Tree<nat>, loc: seq<nat>, loc': seq<nat>, a: nat, b: nat)
    requires InRange(t, |loc|) && a in Members(t) && b in Members(t)
    requires loc' == loc[a := loc[b]][b := loc[a]]
    ensures InRange(t, |loc'|) && Locators(t, loc') == Locators(t, loc)
  {
    forall l | l in Locators(t, loc') ensures l in Locators(t, loc) {
      var id :| id in Members(t) && l == loc'[id];
      var w := if id == a then b else if id == b then a else id;
      assert w in Members(t) && l == loc[w];
    }
    forall l | l in Locators(t, loc) ensures l in Locators(t, loc') {
      var id :| id in Members(t) && l == loc[id];
      var w := if id == a then b else if id == b then a else id;
      assert w in Members(t) && l == loc'[w];
    }
  }

  /** Exchanging the contents of two nodes of a subtree, and re-pointing their
      locators, leaves the subtree's elements as they were. */
  lemma ContentsExchange<V>(t: Tree<nat>, key: seq<int>, value: seq<V>, loc: seq<nat>, target: seq<nat>,
                            key': seq<int>, value': seq<V>, loc': seq<nat>, target': seq<nat>,
                            a: nat, b: nat)
    requires |key| == |value| == |loc| && Bijection(loc, target) && InRange(t, |loc|)
    requires a in Members(t) && b in Members(t) && a != b
    requires key' == key[a := key[b]][b := key[a]] && value' == value[a := value[b]][b := value[a]]
    requires loc' == loc[a := loc[b]][b := loc[a]] && target' == target[loc[a] := b][loc[b] := a]
    requires Bijection(loc', target')
    ensures Contents(t, key', value', loc', target') == Contents(t, key, value, loc, target)
  {
    LocatorsExchange(t, loc, loc', a, b);
    forall l | l in Locators(t, loc)
      ensures key'[target'[l]] == key[target[l]] && value'[target'[l]] == value[target[l]]
    {
      ExchangeAt(key, value, loc, target, key', value', loc', target', a, b, l);
    }
  }

  /** After the exchange, locator `l` still denotes the same (key, value) pair. */
  lemma ExchangeAt<V>(key: seq<int>, value: seq<V>, loc: seq<nat>, target: seq<nat>,
                      key': seq<int>, value': seq<V>, loc': seq<nat>, target': seq<nat>,
                      a: nat, b: nat, l: nat)
    requires |key| == |value| == |loc| && Bijection(loc, target)
    requires a < |loc| && b < |loc| && a != b && l < |target|
    requires key' == key[a := key[b]][b := key[a]] && value' == value[a := value[b]][b := value[a]]
    requires target' == target[loc[a] := b][loc[b] := a]
    ensures target'[l] < |key| && target[l] < |key|
    ensures key'[target'[l]] == key[target[l]] && value'[target'[l]] == value[target[l]]
  {
    assert target[loc[a]] == a && target[loc[b]] == b;
    if l != loc[a] && l != loc[b] {
      assert loc[target[l]] == l;
    }
  }

  /** In a heap-ordered subtree every element's key is at most the root's. */
  lemma ContentsBelowRoot<V>(n: int, t: Tree<nat>, key: seq<int>, value: seq<V>, loc: seq<nat>, target: seq<nat>)
    requires |key| == |value| == |loc| && Bijection(loc, target) && InRange(t, |loc|)
    requires t.Node? && HeapOrdered(t, KeyOf(key))
    ensures t.data < |loc|
    ensures loc[t.data] in Contents(t, key, value, loc, target)
    ensures Contents(t, key, value, loc, target)[loc[t.data]] == (key[t.data], value[t.data])
    ensures forall l | l in Contents(t, key, value, loc, target) ::
      Contents(t, key, value, loc, target)[l].0 <= key[t.data]
  {
    assert t.data in Members(t);
    forall l | l in Locators(t, loc)
      ensures key[target[l]] <= key[t.data]
    {
      var id :| id in Members(t) && l == loc[id];
      RootIsMax(t, KeyOf(key), id);
    }
  }

  // ---------------------------------------------------------------------------
  // Counting and framing

  /** Distinct nodes have distinct locators, so a set of node ids has as many
      locators as members. */
  lemma {:induction false} ImageCount(ids: set<nat>, loc: seq<nat>, target: seq<nat>)
    requires Bijection(loc, target) && forall id | id in ids :: id < |loc|
    ensures |set id | id in ids :: loc[id]| == |ids|
    decreases ids
  {
    if ids != {} {
      var x :| x in ids;
      var rest := ids - {x};
      ImageCount(rest, loc, target);
      var img := set id | id in ids :: loc[id];
      var imgRest := set id | id in rest :: loc[id];
      assert img == imgRest + {loc[x]};
      assert loc[x] !in imgRest by {
        forall id | id in rest ensures loc[id] != loc[x] {
          assert target[loc[id]] == id && target[loc[x]] == x;
        }
      }
    }
  }

  /** A heap of n nodes is denoted by exactly n locators. */
  lemma LocatorsCount(t: Tree<nat>, loc: seq<nat>, target: seq<nat>)
    requires Bijection(loc, target) && InRange(t, |loc|) && Distinct(t)
    ensures |Locators(t, loc)| == Weight(t)
  {
    ImageCount(Members(t), loc, target);
    DistinctCounts(t);
  }

  /** Outside the node ids `ids`, nodes keep their key, value and locator, and
      locators of nodes outside `ids` keep denoting the same node; the arrays
      may only grow. */
  ghost predicate ContentsKeptOutside<V>(ids: set<nat>,
                                         key: seq<int>, value: seq<V>, loc: seq<nat>, target: seq<nat>,
                                         key': seq<int>, value': seq<V>, loc': seq<nat>, target': seq<nat>)
  {
    |key| <= |key'| && |value| <= |value'| && |loc| <= |loc'| && |target| <= |target'| &&
    (forall id | 0 <= id < |key| && id !in ids :: key'[id] == key[id]) &&
    (forall id | 0 <= id < |value| && id !in ids :: value'[id] == value[id]) &&
    (forall id | 0 <= id < |loc| && id !in ids :: loc'[id] == loc[id]) &&
    (forall j | 0 <= j < |target| && target[j] !in ids :: target'[j] == target[j])
  }

  lemma ContentsKeptTrans<V>(ids1: set<nat>, ids2: set<nat>, ids: set<nat>,
                             key0: seq<int>, value0: seq<V>, loc0: seq<nat>, target0: seq<nat>,
                             key1: seq<int>, value1: seq<V>, loc1: seq<nat>, target1: seq<nat>,
                             key2: seq<int>, value2: seq<V>, loc2: seq<nat>, target2: seq<nat>)
    requires ContentsKeptOutside(ids1, key0, value0, loc0, target0, key1, value1, loc1, target1)
    requires ContentsKeptOutside(ids2, key1, value1, loc1, target1, key2, value2, loc2, target2)
    requires ids1 <= ids && ids2 <= ids
    ensures ContentsKeptOutside(ids, key0, value0, loc0, target0, key2, value2, loc2, target2)
  {
  }

  /** A heap none of whose nodes was touched keeps its shape and its contents,
      whatever happened to the rest of the store: this is what keeps two heaps
      that share one store independent of each other. */
  lemma HeapUntouched<V>(root: int, t: Tree<nat>, size: int, linkIds: set<nat>, contentIds: set<nat>,
                         key: seq<int>, value: seq<V>, left: seq<int>, right: seq<int>, parent: seq<int>,
                         loc: seq<nat>, target: seq<nat>,
                         key': seq<int>, value': seq<V>, left': seq<int>, right': seq<int>, parent': seq<int>,
                         loc': seq<nat>, target': seq<nat>)
    requires |value| == |left| == |right| == |parent| == |loc| == |key| && Bijection(loc, target)
    requires |value'| == |loc'| == |key'| && Bijection(loc', target')
    requires Shaped(root, t, size, key, left, right, parent)
    requires Members(t) !! linkIds && Members(t) !! contentIds
    requires LinksKeptOutside(linkIds, left, right, parent, left', right', parent')
    requires ContentsKeptOutside(contentIds, key, value, loc, target, key', value', loc', target')
    ensures Shaped(root, t, size, key', left', right', parent')
    ensures Contents(t, key', value', loc', target') == Contents(t, key, value, loc, target)
  {
    SubtreeKept(root, t, linkIds, left, right, parent, left', right', parent');
    forall d | d in Members(t) ensures KeyOf(key)(d) == KeyOf(key')(d) {
    }
    HeapOrderedSameKeys(t, KeyOf(key), KeyOf(key'));
    ContentsUntouched(t, contentIds, key, value, loc, target, key', value', loc', target');
  }

  /** The contents half of HeapUntouched. */
  lemma ContentsUntouched<V>(t: Tree<nat>, ids: set<nat>,
                             key: seq<int>, value: seq<V>, loc: seq<nat>, target: seq<nat>,
                             key': seq<int>, value': seq<V>, loc': seq<nat>, target': seq<nat>)
    requires |value| == |loc| == |key| && Bijection(loc, target) && InRange(t, |key|)
    requires |value'| == |loc'| == |key'| && Bijection(loc', target')
    requires Members(t) !! ids
    requires ContentsKeptOutside(ids, key, value, loc, target, key', value', loc', target')
    ensures InRange(t, |key'|)
    ensures Contents(t, key', value', loc', target') == Contents(t, key, value, loc, target)
  {
    assert Locators(t, loc') == Locators(t, loc) by {
      forall l | l in Locators(t, loc') ensures l in Locators(t, loc) {
        var id :| id in Members(t) && l == loc'[id];
      }
      forall l | l in Locators(t, loc) ensures l in Locators(t, loc') {
        var id :| id in Members(t) && l == loc[id];
      }
    }
    forall l | l in Locators(t, loc) ensures target'[l] == target[l] {
      var id :| id in Members(t) && l == loc[id];
      assert target[l] == id;
    }
  }

  // ---------------------------------------------------------------------------
  // The node memory

  class Store<V> {
    var key: seq<int>
    var value: seq<V>
    var left: seq<int>
    var right: seq<int>
    var parent: seq<int>
    var loc: seq<nat>
    var target: seq<nat>

    ghost predicate Valid()
      reads this
    {
      |value| == |key| && |left| == |key| && |right| == |key| &&
      |parent| == |key| && |loc| == |key| && Bijection(loc, target)
    }

    /** The elements held by the nodes of `t`, by locator. */
    ghost function Elems(t: Tree<nat>): map<nat, (int, V)>
      reads this
      requires Valid() && InRange(t, |key|)
    {
      Contents(t, key, value, loc, target)
    }

    constructor ()
      ensures Valid() && key == [] && target == []
    {
      key, value, left, right, parent, loc, target := [], [], [], [], [], [], [];
    }

    /** A fresh node holding (x, v) with no links, and a fresh locator denoting it;
        `new Node()` and `new Locator()` in the source. */
    method NewNode(x: int, v: V) returns (n: nat)
      requires Valid()
      modifies this
      ensures Valid() && n == old(|key|)
      ensures key == old(key) + [x] && value == old(value) + [v]
      ensures left == old(left) + [Null] && right == old(right) + [Null] && parent == old(parent) + [Null]
      ensures loc == old(loc) + [n] && target == old(target) + [n]
      ensures ContentsKeptOutside({}, old(key), old(value), old(loc), old(target), key, value, loc, target)
    {
      n := |key|;
      key, value := key + [x], value + [v];
      left, right, parent := left + [Null], right + [Null], parent + [Null];
      loc, target := loc + [n], target + [n];
    }

    /** Exchanges the (key, value, locator) contents of nodes `a` and `b` and
        re-points both locators, leaving every link alone. */
    method SwapContents(a: nat, b: nat)
      requires Valid() && a < |key| && b < |key| && a != b
      modifies this
      ensures Valid()
      ensures key == old(key)[a := old(key[b])][b := old(key[a])]
      ensures value == old(value)[a := old(value[b])][b := old(value[a])]
      ensures loc == old(loc)[a := old(loc[b])][b := old(loc[a])]
      ensures target == old(target)[old(loc[a]) := b][old(loc[b]) := a]
      ensures left == old(left) && right == old(right) && parent == old(parent)
      ensures ContentsKeptOutside({a, b}, old(key), old(value), old(loc), old(target), key, value, loc, target)
    {
      assert loc[a] != loc[b] by { assert target[loc[a]] == a; }
      assert target[loc[a]] == a && target[loc[b]] == b;
      var tempKey, tempValue := key[b], value[b];
      key, value := key[b := key[a]], value[b := value[a]];
      key, value := key[a := tempKey], value[a := tempValue];
      target := target[loc[a] := b];
      target := target[loc[b] := a];
      var tempLoc := loc[a];
      loc := loc[a := loc[b]];
      loc := loc[b := tempLoc];
      assert Bijection(loc, target) by {
        forall j | 0 <= j < |target| ensures target[j] < |loc| && loc[target[j]] == j {
          if j != old(loc[a]) && j != old(loc[b]) {
            assert old(loc[target[j]]) == j;
          }
        }
      }
    }
  }
}
