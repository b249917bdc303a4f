/** The two phases of WtLeftHeap.updateKey, one swap at a time.  The tree's links
    never change while a key travels; only keys (with their values and locators)
    are exchanged along one parent-child edge.  Heap order is tracked edge by edge
    (NodeStore.EdgesOrdered), with the one node `c` that holds the new key allowed
    to break it: on the way up the edge entering `c` may be out of order, on the
    way down the edges leaving `c` may be. */
module Sift {
  import opened LeftistTree
  import opened NodeStore

  /** The links of a whole heap: shape, parent links, no node twice, and a root
      without a parent. */
  ghost predicate Linked(root: int, t: Tree<nat>, left: seq<int>, right: seq<int>, parent: seq<int>)
  {
    Realizes(root, t, left, right) && Parented(t, parent) && Distinct(t) &&
    (root != Null ==> 0 <= root < |parent| && parent[root] == Null)
  }

  /** The children of `c` are no larger than `c`'s parent, so that the parent's
      key may move down into `c` without breaking the edges below `c`. */
  ghost predicate BelowGrandparent(key: seq<int>, left: seq<int>, right: seq<int>, parent: seq<int>, c: int)
  {
    0 <= c < |left| && c < |right| && c < |parent| &&
    (parent[c] != Null ==>
       0 <= parent[c] < |key| &&
       (left[c] != Null ==> 0 <= left[c] < |key| && key[left[c]] <= key[parent[c]]) &&
       (right[c] != Null ==> 0 <= right[c] < |key| && key[right[c]] <= key[parent[c]]))
  }

  /** The link facts every step needs, about one node `c` of the tree: its
      children lead back to it, only the root lacks a parent, and `c` is neither
      its own parent nor its parent's parent. */
  lemma NodeLinks(root: int, t: Tree<nat>, left: seq<int>, right: seq<int>, parent: seq<int>, c: nat)
    requires |left| == |right| == |parent|
    requires Linked(root, t, left, right, parent) && c in Members(t)
    ensures c < |left| && (parent[c] == Null <==> c == root)
    ensures left[c] != Null ==>
      left[c] in Members(t) && 0 <= left[c] < |parent| && parent[left[c]] == c && left[c] != c
    ensures right[c] != Null ==>
      right[c] in Members(t) && 0 <= right[c] < |parent| && parent[right[c]] == c && right[c] != c
    ensures c != root ==>
      parent[c] in Members(t) && 0 <= parent[c] < |left| && parent[c] != c &&
      (left[parent[c]] == c || right[parent[c]] == c) && parent[parent[c]] != c
  {
    TreeLinks(root, t, left, right, parent);
    DepthLinks(root, t, left, right, parent);
    if left[c] != Null && left[c] != root {
      assert Depth(t, c) < Depth(t, left[c]);
    }
    if right[c] != Null && right[c] != root {
      assert Depth(t, c) < Depth(t, right[c]);
    }
    if c != root && parent[c] != root {
      assert Depth(t, parent[parent[c]]) < Depth(t, parent[c]) < Depth(t, c);
    }
  }

  /** Parents sit strictly higher than their children, and no node sits deeper
      than the tree has nodes: what bounds both loops of updateKey. */
  lemma ParentDepth(root: int, t: Tree<nat>, left: seq<int>, right: seq<int>, parent: seq<int>, c: nat)
    requires Linked(root, t, left, right, parent) && c in Members(t)
    ensures Depth(t, c) < Weight(t)
    ensures c != root ==> c < |parent| && parent[c] in Members(t) && Depth(t, parent[c]) < Depth(t, c)
  {
    DepthLinks(root, t, left, right, parent);
  }

  /** Children sit strictly lower than their parent. */
  lemma ChildDepth(root: int, t: Tree<nat>, left: seq<int>, right: seq<int>, parent: seq<int>, c: nat)
    requires |left| == |right| == |parent|
    requires Linked(root, t, left, right, parent) && c in Members(t)
    ensures c < |left| && c < |right|
    ensures left[c] != Null ==> left[c] in Members(t) && Depth(t, c) < Depth(t, left[c])
    ensures right[c] != Null ==> right[c] in Members(t) && Depth(t, c) < Depth(t, right[c])
  {
    NodeLinks(root, t, left, right, parent, c);
    if left[c] != Null {
      ParentDepth(root, t, left, right, parent, left[c]);
    }
    if right[c] != Null {
      ParentDepth(root, t, left, right, parent, right[c]);
    }
  }

  // ---------------------------------------------------------------------------
  // One edge `id` -> `y` at a time

  /** Writing `x` into node `c` keeps an edge in order when `x` still dominates
      the edge's lower end (if `c` is the upper end) and is still dominated by the
      upper end (if `c` is the lower end). */
  lemma SetKeyEdge(key: seq<int>, c: nat, x: int, id: nat, y: int)
    requires c < |key| && id < |key| && (y != Null ==> 0 <= y < |key| && y != id)
    requires OrderedEdge(key, id, y)
    requires id == c && y != Null ==> key[y] <= x
    requires y == c ==> x <= key[id]
    ensures OrderedEdge(key[c := x], id, y)
  {
  }

  /** The edge `id` -> `y` after the upward swap of `c` with its parent `p`. */
  lemma UpEdge(key: seq<int>, c: nat, p: nat, id: nat, y: int)
    requires c < |key| && p < |key| && id < |key| && c != p && key[p] < key[c]
    requires y != Null ==> 0 <= y < |key| && y != id
    requires y != p && (y == c ==> id == p)
    requires id == c && y != Null ==> key[y] <= key[p]
    requires y != c ==> OrderedEdge(key, id, y)
    ensures OrderedEdge(key[c := key[p]][p := key[c]], id, y)
  {
  }

  /** The edge `id` -> `y` after the downward swap of `c` with its child `d`. */
  lemma DownEdge(key: seq<int>, c: nat, d: nat, id: nat, y: int)
    requires c < |key| && d < |key| && id < |key| && c != d && id != d && key[c] < key[d]
    requires y != Null ==> 0 <= y < |key| && y != id
    requires y == d ==> id == c
    requires id == c && y != Null ==> key[y] <= key[d]
    requires y == c && id != c ==> key[d] <= key[id]
    requires id != c ==> OrderedEdge(key, id, y)
    ensures OrderedEdge(key[c := key[d]][d := key[c]], id, y)
  {
  }

  /** Writing the new key `x` into node `c` of a heap-ordered tree: `c`'s
      children stay below `c`'s parent, and the order is broken at most on the
      edge entering `c` (when `x` beats the parent: the upward phase runs) or on
      the edges leaving `c` (otherwise: the downward phase runs). */
  lemma StartUpdate(root: int, t: Tree<nat>, key: seq<int>, left: seq<int>, right: seq<int>, parent: seq<int>,
                    c: nat, x: int)
    requires |key| == |left| == |right| == |parent|
    requires Linked(root, t, left, right, parent) && InRange(t, |key|) && HeapOrdered(t, KeyOf(key))
    requires c in Members(t)
    ensures c < |key|
    ensures BelowGrandparent(key[c := x], left, right, parent, c)
    ensures UpMove(key[c := x], parent, c, x) ==> EdgesOrdered(t, key[c := x], left, right, Null, c)
    ensures !UpMove(key[c := x], parent, c, x) ==> EdgesOrdered(t, key[c := x], left, right, c, Null)
  {
    EdgesOrderedIsHeapOrdered(root, t, key, left, right);
    NodeLinks(root, t, left, right, parent, c);
    var key' := key[c := x];
    var up := parent[c] != Null && key'[parent[c]] < x;
    assert OrderedEdge(key, c, left[c]) && OrderedEdge(key, c, right[c]);
    if parent[c] != Null {
      NodeLinks(root, t, left, right, parent, parent[c]);
      assert OrderedEdge(key, parent[c], left[parent[c]]) && OrderedEdge(key, parent[c], right[parent[c]]);
    }
    if up {
      forall id | id in Members(t)
        ensures left[id] != c ==> OrderedEdge(key', id, left[id])
        ensures right[id] != c ==> OrderedEdge(key', id, right[id])
      {
        NodeLinks(root, t, left, right, parent, id);
        if left[id] != c {
          SetKeyEdge(key, c, x, id, left[id]);
        }
        if right[id] != c {
          SetKeyEdge(key, c, x, id, right[id]);
        }
      }
    } else {
      forall id | id in Members(t) && id != c
        ensures OrderedEdge(key', id, left[id]) && OrderedEdge(key', id, right[id])
      {
        NodeLinks(root, t, left, right, parent, id);
        SetKeyEdge(key, c, x, id, left[id]);
        SetKeyEdge(key, c, x, id, right[id]);
      }
    }
  }

  /** One upward swap: node `c` holds a key larger than its parent `p`'s, and
      exchanging the two keys moves the one loose edge up to the edge entering
      `p`.  The depth of the loose node drops, which bounds the loop. */
  lemma UpStep(root: int, t: Tree<nat>, key: seq<int>, left: seq<int>, right: seq<int>, parent: seq<int>,
               c: nat)
    requires |key| == |left| == |right| == |parent|
    requires Linked(root, t, left, right, parent) && InRange(t, |key|) && c in Members(t)
    requires EdgesOrdered(t, key, left, right, Null, c) && BelowGrandparent(key, left, right, parent, c)
    requires parent[c] != Null && key[parent[c]] < key[c]
    ensures parent[c] in Members(t) && 0 <= parent[c] < |key| && parent[c] != c
    ensures EdgesOrdered(t, key[c := key[parent[c]]][parent[c] := key[c]], left, right, Null, parent[c])
    ensures BelowGrandparent(key[c := key[parent[c]]][parent[c] := key[c]], left, right, parent, parent[c])
  {
    NodeLinks(root, t, left, right, parent, c);
    var p := parent[c];
    var key' := key[c := key[p]][p := key[c]];
    assert EdgesOrdered(t, key', left, right, Null, p) by {
      forall id | id in Members(t)
        ensures left[id] != p ==> OrderedEdge(key', id, left[id])
        ensures right[id] != p ==> OrderedEdge(key', id, right[id])
      {
        NodeLinks(root, t, left, right, parent, id);
        if left[id] != p {
          UpEdge(key, c, p, id, left[id]);
        }
        if right[id] != p {
          UpEdge(key, c, p, id, right[id]);
        }
      }
    }
    assert BelowGrandparent(key', left, right, parent, p) by {
      NodeLinks(root, t, left, right, parent, p);
      if parent[p] != Null {
        var g := parent[p];
        assert g != c && g != p && key'[g] == key[g] && key'[p] == key[c] && key'[c] == key[p];
        assert OrderedEdge(key, g, p);
        if left[p] != Null && left[p] != c {
          assert OrderedEdge(key, p, left[p]) && key'[left[p]] == key[left[p]];
        }
        if right[p] != Null && right[p] != c {
          assert OrderedEdge(key, p, right[p]) && key'[right[p]] == key[right[p]];
        }
      }
    }
  }

  /** The upward phase ends with the loose edge in order (or with no edge above). */
  lemma UpDone(root: int, t: Tree<nat>, key: seq<int>, left: seq<int>, right: seq<int>, parent: seq<int>,
               c: nat)
    requires |key| == |left| == |right| == |parent|
    requires Linked(root, t, left, right, parent) && InRange(t, |key|) && c in Members(t)
    requires EdgesOrdered(t, key, left, right, Null, c)
    requires parent[c] != Null ==> 0 <= parent[c] < |key| && key[c] <= key[parent[c]]
    ensures EdgesOrdered(t, key, left, right, Null, Null)
  {
    forall id | id in Members(t)
      ensures OrderedEdge(key, id, left[id]) && OrderedEdge(key, id, right[id])
    {
      NodeLinks(root, t, left, right, parent, id);
      if left[id] == c || right[id] == c {
        assert parent[c] == id;
      }
    }
  }

  /** One downward swap: node `c` has a child `d` with a larger key than `c`'s,
      and no larger than `c`'s other child; exchanging the keys of `c` and `d`
      moves the loose edges down to those leaving `d`.  The depth of the loose
      node grows, and no node is deeper than the tree has nodes. */
  lemma DownStep(root: int, t: Tree<nat>, key: seq<int>, left: seq<int>, right: seq<int>, parent: seq<int>,
                 c: nat, d: nat)
    requires |key| == |left| == |right| == |parent|
    requires Linked(root, t, left, right, parent) && InRange(t, |key|) && c in Members(t)
    requires EdgesOrdered(t, key, left, right, c, Null) && BelowGrandparent(key, left, right, parent, c)
    requires d == left[c] || d == right[c]
    requires c < |key| && d < |key| && key[c] < key[d]
    requires left[c] != Null ==> 0 <= left[c] < |key| && key[left[c]] <= key[d]
    requires right[c] != Null ==> 0 <= right[c] < |key| && key[right[c]] <= key[d]
    ensures d in Members(t) && d != c && parent[d] == c
    ensures EdgesOrdered(t, key[c := key[d]][d := key[c]], left, right, d, Null)
    ensures BelowGrandparent(key[c := key[d]][d := key[c]], left, right, parent, d)
  {
    NodeLinks(root, t, left, right, parent, c);
    NodeLinks(root, t, left, right, parent, d);
    var key' := key[c := key[d]][d := key[c]];
    assert EdgesOrdered(t, key', left, right, d, Null) by {
      forall id | id in Members(t) && id != d
        ensures OrderedEdge(key', id, left[id]) && OrderedEdge(key', id, right[id])
      {
        NodeLinks(root, t, left, right, parent, id);
        DownEdge(key, c, d, id, left[id]);
        DownEdge(key, c, d, id, right[id]);
      }
    }
    assert BelowGrandparent(key', left, right, parent, d) by {
      assert OrderedEdge(key, d, left[d]) && OrderedEdge(key, d, right[d]);
    }
  }

  /** Which child of `c` the key `x` moving down swaps with: 1 for the right, 2
      for the left, 0 for neither.  A child is a candidate when its key beats
      `x`; of two candidates the right one wins only with a strictly larger key,
      so a tie goes to the left child. */
  function ChildToSwap(key: seq<int>, left: seq<int>, right: seq<int>, c: nat, x: int): (path: int)
    requires c < |left| && c < |right|
    requires left[c] != Null ==> 0 <= left[c] < |key|
    requires right[c] != Null ==> 0 <= right[c] < |key|
    ensures path == 0 || path == 1 || path == 2
    ensures path == 0 <==> (left[c] == Null || key[left[c]] <= x) && (right[c] == Null || key[right[c]] <= x)
    ensures path == 1 ==>
              right[c] != Null && x < key[right[c]] && (left[c] != Null ==> key[left[c]] < key[right[c]])
    ensures path == 2 ==>
              left[c] != Null && x < key[left[c]] && (right[c] != Null ==> key[right[c]] <= key[left[c]])
  {
    if right[c] != Null && left[c] != Null then
      if x < key[right[c]] && x < key[left[c]] then
        if key[right[c]] > key[left[c]] then 1 else 2
      else if x < key[right[c]] then 1
      else if x < key[left[c]] then 2
      else 0
    else if right[c] != Null && x < key[right[c]] then 1
    else if left[c] != Null && x < key[left[c]] then 2
    else 0
  }

  // ---------------------------------------------------------------------------
  // The paths the new key takes

  /** The upward phase moves the key `x` from `c` into `c`'s parent: there is a
      parent, and `x` beats its key strictly. */
  ghost predicate UpMove(key: seq<int>, parent: seq<int>, c: nat, x: int)
  {
    c < |parent| && parent[c] != Null && 0 <= parent[c] < |key| && key[parent[c]] < x
  }

  /** Locator `l` ends on the last node of the walk `p`. */
  ghost predicate EndsAt(target: seq<nat>, l: nat, p: seq<nat>)
  {
    l < |target| && |p| >= 1 && target[l] == p[|p| - 1]
  }

  /** Nodes `c` and `d` have exchanged key, value and locator, each locator
      denotes the node its element now sits in, and no other node's contents
      changed: one swap of updateKey. */
  ghost predicate Exchanged<V>(c: nat, d: nat,
                               key0: seq<int>, value0: seq<V>, loc0: seq<nat>, target0: seq<nat>,
                               key: seq<int>, value: seq<V>, loc: seq<nat>, target: seq<nat>)
  {
    c < |key0| && d < |key0| && c < |key| && d < |key| && c < |value0| && d < |value0| &&
    c < |value| && d < |value| && c < |loc0| && d < |loc0| && c < |loc| && d < |loc| &&
    key[c] == key0[d] && value[c] == value0[d] && loc[c] == loc0[d] &&
    key[d] == key0[c] && value[d] == value0[c] && loc[d] == loc0[c] &&
    loc[c] < |target| && target[loc[c]] == c && loc[d] < |target| && target[loc[d]] == d &&
    ContentsKeptOutside({c, d}, key0, value0, loc0, target0, key, value, loc, target)
  }

  /** After `k` swaps along the walk `p`, each of the first `k` nodes of `p`
      holds the key, value and locator that the next node held before, and
      `p[k]` holds what `p[0]` held: the elements the walk pushes aside move
      one place back along it, and the moving element sits at `p[k]`. */
  ghost predicate Rotated<V>(p: seq<nat>, k: nat, key0: seq<int>, value0: seq<V>, loc0: seq<nat>,
                             key: seq<int>, value: seq<V>, loc: seq<nat>)
  {
    k < |p| &&
    |value0| == |key0| && |loc0| == |key0| && |key| == |key0| && |value| == |key0| && |loc| == |key0| &&
    (forall i | 0 <= i < |p| :: p[i] < |key0|) &&
    (forall i {:trigger key[p[i]]} | 0 <= i < k ::
       key[p[i]] == key0[p[i + 1]] && value[p[i]] == value0[p[i + 1]] && loc[p[i]] == loc0[p[i + 1]]) &&
    key[p[k]] == key0[p[0]] && value[p[k]] == value0[p[0]] && loc[p[k]] == loc0[p[0]]
  }

  /** One more swap, between `p[k]` and the unvisited `p[k + 1]`, extends the
      rotation by one node. */
  lemma RotatedStep<V>(p: seq<nat>, k: nat, key0: seq<int>, value0: seq<V>, loc0: seq<nat>,
                       key1: seq<int>, value1: seq<V>, loc1: seq<nat>,
                       key2: seq<int>, value2: seq<V>, loc2: seq<nat>)
    requires Rotated(p, k, key0, value0, loc0, key1, value1, loc1) && k + 1 < |p|
    requires p[k] != p[k + 1] && forall i | 0 <= i < k :: p[i] != p[k] && p[i] != p[k + 1]
    requires key1[p[k + 1]] == key0[p[k + 1]] && value1[p[k + 1]] == value0[p[k + 1]]
    requires loc1[p[k + 1]] == loc0[p[k + 1]]
    requires key2 == key1[p[k] := key1[p[k + 1]]][p[k + 1] := key1[p[k]]]
    requires value2 == value1[p[k] := value1[p[k + 1]]][p[k + 1] := value1[p[k]]]
    requires loc2 == loc1[p[k] := loc1[p[k + 1]]][p[k + 1] := loc1[p[k]]]
    ensures Rotated(p, k + 1, key0, value0, loc0, key2, value2, loc2)
  {
  }

  /** The key, value and locator held by each node of the walk `p`, in order. */
  ghost function Along<V>(p: seq<nat>, key: seq<int>, value: seq<V>, loc: seq<nat>): seq<(int, V, nat)>
    requires forall i | 0 <= i < |p| :: p[i] < |key| && p[i] < |value| && p[i] < |loc|
  {
    seq(|p|, i requires 0 <= i < |p| => (key[p[i]], value[p[i]], loc[p[i]]))
  }

  /** Once the moving element has reached the end of the walk, the contents
      along the walk are the old ones rotated by one place: every node holds
      its successor's old element, and the last node holds the first one's. */
  lemma RotatedAlong<V>(p: seq<nat>, key0: seq<int>, value0: seq<V>, loc0: seq<nat>,
                        key: seq<int>, value: seq<V>, loc: seq<nat>)
    requires |p| >= 1 && Rotated(p, |p| - 1, key0, value0, loc0, key, value, loc)
    ensures var before := Along(p, key0, value0, loc0);
            Along(p, key, value, loc) == before[1..] + [before[0]]
  {
    var before, after := Along(p, key0, value0, loc0), Along(p, key, value, loc);
    forall i | 0 <= i < |p|
      ensures after[i] == (before[1..] + [before[0]])[i]
    {
      if i < |p| - 1 {
        assert key[p[i]] == key0[p[i + 1]];
      }
    }
  }

  /** After the rotation, the first node of a walk of two or more nodes holds
      the element the second node held. */
  lemma RotatedHead<V>(p: seq<nat>, key0: seq<int>, value0: seq<V>, loc0: seq<nat>,
                       key: seq<int>, value: seq<V>, loc: seq<nat>)
    requires |p| >= 2
    requires forall i | 0 <= i < |p| :: p[i] < |key0| && p[i] < |value0| && p[i] < |loc0|
    requires forall i | 0 <= i < |p| :: p[i] < |key| && p[i] < |value| && p[i] < |loc|
    requires var before := Along(p, key0, value0, loc0);
             Along(p, key, value, loc) == before[1..] + [before[0]]
    ensures key[p[0]] == key0[p[1]] && value[p[0]] == value0[p[1]] && loc[p[0]] == loc0[p[1]]
  {
    var before := Along(p, key0, value0, loc0);
    assert Along(p, key, value, loc)[0] == before[1];
  }

  /** The nodes a walk passes through. */
  ghost function Visited(p: seq<nat>): set<nat>
  {
    set n | n in p
  }

  /** Each node of `p` is followed by its parent, into which the upward phase
      moves the key `x`. */
  ghost predicate UpChain(key: seq<int>, parent: seq<int>, p: seq<nat>, x: int)
  {
    |p| <= 1 || (UpMove(key, parent, p[0], x) && p[1] == parent[p[0]] && UpChain(key, parent, p[1..], x))
  }

  /** The nodes the key `x` visits on its way up from `c`, given the keys of the
      nodes it passes: from each node to its parent while the parent's key is
      strictly smaller, stopping at the root or below the first parent whose key
      is at least `x`. */
  ghost function UpWalk(root: int, t: Tree<nat>, key: seq<int>, left: seq<int>, right: seq<int>,
                        parent: seq<int>, c: nat, x: int): (p: seq<nat>)
    requires |key| == |left| == |right| == |parent|
    requires Linked(root, t, left, right, parent) && c in Members(t)
    ensures |p| >= 1 && p[0] == c
    ensures forall i | 0 <= i < |p| :: p[i] in Members(t)
    ensures UpChain(key, parent, p, x)
    ensures !UpMove(key, parent, p[|p| - 1], x)
    decreases Depth(t, c)
  {
    ParentDepth(root, t, left, right, parent, c);
    if UpMove(key, parent, c, x) then
      [c] + UpWalk(root, t, key, left, right, parent, parent[c], x)
    else
      [c]
  }

  /** The downward phase moves the key `x` from `c` into its child `d`: `d`'s key
      beats `x` strictly and is the larger of the two children's keys, where the
      right child counts as larger only when it is strictly so. */
  ghost predicate DownMove(key: seq<int>, left: seq<int>, right: seq<int>, c: nat, d: int, x: int)
  {
    c < |left| && c < |right| && 0 <= d < |key| && x < key[d] &&
    ((d == right[c] && (left[c] == Null || (0 <= left[c] < |key| && key[left[c]] < key[d]))) ||
     (d == left[c] && (right[c] == Null || (0 <= right[c] < |key| && key[right[c]] <= key[d]))))
  }

  /** Each node of `p` is followed by the child into which the downward phase
      moves the key `x`. */
  ghost predicate DownChain(key: seq<int>, left: seq<int>, right: seq<int>, p: seq<nat>, x: int)
  {
    |p| <= 1 || (DownMove(key, left, right, p[0], p[1], x) && DownChain(key, left, right, p[1..], x))
  }

  /** The downward phase stops at `c`: no child of `c` has a key beating `x`. */
  ghost predicate Settled(key: seq<int>, left: seq<int>, right: seq<int>, c: nat, x: int)
  {
    c < |left| && c < |right| &&
    (left[c] == Null || (0 <= left[c] < |key| && key[left[c]] <= x)) &&
    (right[c] == Null || (0 <= right[c] < |key| && key[right[c]] <= x))
  }

  /** The nodes the key `x` visits on its way down from `c`, given the keys of
      the nodes it passes: into the child ChildToSwap picks, until no child beats
      `x`. */
  ghost function DownWalk(root: int, t: Tree<nat>, key: seq<int>, left: seq<int>, right: seq<int>,
                          parent: seq<int>, c: nat, x: int): (p: seq<nat>)
    requires |key| == |left| == |right| == |parent|
    requires Linked(root, t, left, right, parent) && InRange(t, |key|) && c in Members(t)
    ensures |p| >= 1 && p[0] == c
    ensures forall i | 0 <= i < |p| :: p[i] in Members(t)
    ensures DownChain(key, left, right, p, x)
    ensures Settled(key, left, right, p[|p| - 1], x)
    decreases Weight(t) - Depth(t, c)
  {
    NodeLinks(root, t, left, right, parent, c);
    ParentDepth(root, t, left, right, parent, c);
    var k := ChildToSwap(key, left, right, c, x);
    if k == 0 then
      [c]
    else
      var d := if k == 1 then right[c] else left[c];
      ParentDepth(root, t, left, right, parent, d);
      [c] + DownWalk(root, t, key, left, right, parent, d, x)
  }

  /** The whole path of a key update that writes `x` at `c` (where `key` already
      holds `x` at `c`): upward when the parent is strictly smaller, else downward. */
  ghost function Walk(root: int, t: Tree<nat>, key: seq<int>, left: seq<int>, right: seq<int>,
                      parent: seq<int>, c: nat, x: int): (p: seq<nat>)
    requires |key| == |left| == |right| == |parent|
    requires Linked(root, t, left, right, parent) && InRange(t, |key|) && c in Members(t)
    ensures |p| >= 1 && p[0] == c
    ensures forall i | 0 <= i < |p| :: p[i] in Members(t)
  {
    if UpMove(key, parent, c, x) then UpWalk(root, t, key, left, right, parent, c, x)
    else DownWalk(root, t, key, left, right, parent, c, x)
  }

  /** ChildToSwap reads only the children's keys. */
  lemma ChildToSwapKeys(key: seq<int>, key': seq<int>, left: seq<int>, right: seq<int>, c: nat, x: int)
    requires c < |left| && c < |right|
    requires left[c] != Null ==> 0 <= left[c] < |key| && left[c] < |key'| && key'[left[c]] == key[left[c]]
    requires right[c] != Null ==> 0 <= right[c] < |key| && right[c] < |key'| && key'[right[c]] == key[right[c]]
    ensures ChildToSwap(key', left, right, c, x) == ChildToSwap(key, left, right, c, x)
  {
  }

  /** Where the upward phase stands after the swaps along `done`: the key sits at
      `curr`, `p` (the whole walk) continues with the walk from `curr`, `seen`
      holds the nodes visited so far, and none of them lies above `curr`. */
  ghost predicate UpTrail(root: int, t: Tree<nat>, key: seq<int>, left: seq<int>, right: seq<int>,
                          parent: seq<int>, x: int, p: seq<nat>, done: seq<nat>, seen: set<nat>, curr: nat)
  {
    |key| == |left| == |right| == |parent| && Linked(root, t, left, right, parent) && curr in Members(t) &&
    p == done + UpWalk(root, t, key, left, right, parent, curr, x) &&
    seen == Visited(done) + {curr} && curr !in Visited(done) &&
    forall n | n in seen :: n in Members(t) && Depth(t, curr) <= Depth(t, n)
  }

  lemma UpTrailStart(root: int, t: Tree<nat>, key: seq<int>, left: seq<int>, right: seq<int>,
                     parent: seq<int>, x: int, c: nat)
    requires |key| == |left| == |right| == |parent| && Linked(root, t, left, right, parent) && c in Members(t)
    ensures UpTrail(root, t, key, left, right, parent, x, UpWalk(root, t, key, left, right, parent, c, x),
                    [], {c}, c)
  {
    var w := UpWalk(root, t, key, left, right, parent, c, x);
    assert [] + w == w;
    assert Visited([]) + {c} == {c};
  }

  /** The parent of the node holding the key has not been visited yet. */
  lemma UpTrailNext(root: int, t: Tree<nat>, key: seq<int>, left: seq<int>, right: seq<int>,
                    parent: seq<int>, x: int, p: seq<nat>, done: seq<nat>, seen: set<nat>, curr: nat)
    requires UpTrail(root, t, key, left, right, parent, x, p, done, seen, curr)
    ensures curr < |parent|
    ensures parent[curr] != Null ==> parent[curr] in Members(t) && parent[curr] !in seen
  {
    ParentDepth(root, t, left, right, parent, curr);
    NodeLinks(root, t, left, right, parent, curr);
  }

  /** The upward phase moves on to the parent. */
  lemma UpTrailStep(root: int, t: Tree<nat>, key: seq<int>, left: seq<int>, right: seq<int>,
                    parent: seq<int>, x: int, p: seq<nat>, done: seq<nat>, seen: set<nat>, curr: nat)
    requires UpTrail(root, t, key, left, right, parent, x, p, done, seen, curr)
    requires UpMove(key, parent, curr, x)
    ensures parent[curr] in Members(t) && 0 <= parent[curr] && parent[curr] !in seen
    ensures UpTrail(root, t, key, left, right, parent, x, p, done + [curr], seen + {parent[curr]},
                    parent[curr])
    ensures |done| + 1 < |p| && p[|done|] == curr && p[|done| + 1] == parent[curr]
    ensures forall i | 0 <= i < |done| :: p[i] != curr && p[i] != parent[curr]
  {
    ParentDepth(root, t, left, right, parent, curr);
    NodeLinks(root, t, left, right, parent, curr);
    var q := parent[curr];
    assert p == (done + [curr]) + UpWalk(root, t, key, left, right, parent, q, x);
    assert Visited(done + [curr]) == Visited(done) + {curr};
  }

  /** The upward phase stops: the walk ends at `curr`, and the nodes visited are
      those of the walk. */
  lemma UpTrailEnd(root: int, t: Tree<nat>, key: seq<int>, left: seq<int>, right: seq<int>,
                   parent: seq<int>, x: int, p: seq<nat>, done: seq<nat>, seen: set<nat>, curr: nat)
    requires UpTrail(root, t, key, left, right, parent, x, p, done, seen, curr)
    requires !UpMove(key, parent, curr, x)
    ensures p[|p| - 1] == curr && Visited(p) == seen && |done| == |p| - 1
  {
    assert p == done + [curr];
  }

  /** Where the downward phase stands after the swaps along `done`: as UpTrail,
      with every node visited so far lying no lower than `curr`. */
  ghost predicate DownTrail(root: int, t: Tree<nat>, key: seq<int>, left: seq<int>, right: seq<int>,
                            parent: seq<int>, x: int, p: seq<nat>, done: seq<nat>, seen: set<nat>, curr: nat)
  {
    |key| == |left| == |right| == |parent| && Linked(root, t, left, right, parent) &&
    InRange(t, |key|) && curr in Members(t) &&
    p == done + DownWalk(root, t, key, left, right, parent, curr, x) &&
    seen == Visited(done) + {curr} && curr !in Visited(done) &&
    forall n | n in seen :: n in Members(t) && Depth(t, n) <= Depth(t, curr)
  }

  lemma DownTrailStart(root: int, t: Tree<nat>, key: seq<int>, left: seq<int>, right: seq<int>,
                       parent: seq<int>, x: int, c: nat)
    requires |key| == |left| == |right| == |parent| && Linked(root, t, left, right, parent)
    requires InRange(t, |key|) && c in Members(t)
    ensures DownTrail(root, t, key, left, right, parent, x, DownWalk(root, t, key, left, right, parent, c, x),
                      [], {c}, c)
  {
    var w := DownWalk(root, t, key, left, right, parent, c, x);
    assert [] + w == w;
    assert Visited([]) + {c} == {c};
  }

  /** The children of the node holding the key have not been visited yet. */
  lemma DownTrailNext(root: int, t: Tree<nat>, key: seq<int>, left: seq<int>, right: seq<int>,
                      parent: seq<int>, x: int, p: seq<nat>, done: seq<nat>, seen: set<nat>, curr: nat)
    requires DownTrail(root, t, key, left, right, parent, x, p, done, seen, curr)
    ensures curr < |left| && curr < |right|
    ensures left[curr] != Null ==> left[curr] in Members(t) && 0 <= left[curr] < |key| && left[curr] !in seen
    ensures right[curr] != Null ==> right[curr] in Members(t) && 0 <= right[curr] < |key| && right[curr] !in seen
  {
    ChildDepth(root, t, left, right, parent, curr);
  }

  /** The downward phase moves on to the child `d` that ChildToSwap picks. */
  lemma DownTrailStep(root: int, t: Tree<nat>, key: seq<int>, left: seq<int>, right: seq<int>,
                      parent: seq<int>, x: int, p: seq<nat>, done: seq<nat>, seen: set<nat>, curr: nat, d: int)
    requires DownTrail(root, t, key, left, right, parent, x, p, done, seen, curr)
    requires curr < |left| && curr < |right|
    requires left[curr] != Null ==> 0 <= left[curr] < |key|
    requires right[curr] != Null ==> 0 <= right[curr] < |key|
    requires ChildToSwap(key, left, right, curr, x) != 0
    requires d == if ChildToSwap(key, left, right, curr, x) == 1 then right[curr] else left[curr]
    ensures d in Members(t) && 0 <= d && d !in seen
    ensures DownTrail(root, t, key, left, right, parent, x, p, done + [curr], seen + {d}, d)
    ensures |done| + 1 < |p| && p[|done|] == curr && p[|done| + 1] == d
    ensures forall i | 0 <= i < |done| :: p[i] != curr && p[i] != d
  {
    ChildDepth(root, t, left, right, parent, curr);
    assert p == (done + [curr]) + DownWalk(root, t, key, left, right, parent, d, x);
    assert Visited(done + [curr]) == Visited(done) + {curr};
  }

  /** The downward phase stops: the walk ends at `curr`, and the nodes visited
      are those of the walk. */
  lemma DownTrailEnd(root: int, t: Tree<nat>, key: seq<int>, left: seq<int>, right: seq<int>,
                     parent: seq<int>, x: int, p: seq<nat>, done: seq<nat>, seen: set<nat>, curr: nat)
    requires DownTrail(root, t, key, left, right, parent, x, p, done, seen, curr)
    requires Settled(key, left, right, curr, x)
    ensures p[|p| - 1] == curr && Visited(p) == seen && |done| == |p| - 1
  {
    assert ChildToSwap(key, left, right, curr, x) == 0;
    assert p == done + [curr];
  }

  /** No child of `c` has a larger key than `c`. */
  ghost predicate ChildrenBelow(key: seq<int>, left: seq<int>, right: seq<int>, c: int)
  {
    0 <= c < |left| && c < |right| && OrderedEdge(key, c, left[c]) && OrderedEdge(key, c, right[c])
  }

  /** Where the downward phase stops, the children, which it has not touched,
      are no larger than the key `x` it leaves in `c`. */
  lemma SettledChildrenBelow(key0: seq<int>, key: seq<int>, left: seq<int>, right: seq<int>,
                             c: nat, x: int, seen: set<nat>)
    requires Settled(key0, left, right, c, x) && c < |key| && key[c] == x && |key0| <= |key|
    requires left[c] != Null ==> left[c] !in seen
    requires right[c] != Null ==> right[c] !in seen
    requires forall id | 0 <= id < |key0| && id !in seen :: key[id] == key0[id]
    ensures ChildrenBelow(key, left, right, c)
  {
  }

  /** The downward phase ends when no child of the loose node is larger. */
  lemma DownDone(t: Tree<nat>, key: seq<int>, left: seq<int>, right: seq<int>, c: nat)
    requires EdgesOrdered(t, key, left, right, c, Null) && ChildrenBelow(key, left, right, c)
    ensures EdgesOrdered(t, key, left, right, Null, Null)
  {
  }
}
