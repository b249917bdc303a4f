/** WtLeftHeap: a weight-biased leftist max-heap over nodes in a shared `Store`,
    with locators that keep denoting the same element while updateKey moves
    contents between nodes.  Keys are integers; values are opaque. */
module Heap {
  import opened LeftistTree
  import opened NodeStore
  import opened Sift

  /** The outcome of `extract`: the root's value, or the empty-heap exception. */
  datatype Extracted<V> = Ok(value: V) | EmptyHeap

  class WtLeftHeap<V> {
    var root: int
    var size: int
    /** The memory the nodes live in, shared with every other heap. */
    const store: Store<V>
    /** The shape of the tree below `root`, by node id. */
    ghost var tree: Tree<nat>

    /** The invariants of the source: the tree hanging off `root` is well linked,
        owns each of its nodes once, is a max-heap and is weight-biased, the root
        has no parent, and `size` counts its nodes. */
    ghost predicate Valid()
      reads this, store
    {
      store.Valid() && Shaped(root, tree, size, store.key, store.left, store.right, store.parent)
    }

    /** The elements of the heap, by the locator that denotes each. */
    ghost function Elems(): map<nat, (int, V)>
      reads this, store
      requires Valid()
    {
      store.Elems(tree)
    }

    /** The node holding the element that locator `l` denotes. */
    ghost function NodeOf(l: nat): (n: nat)
      reads this, store
      requires Valid() && l in Elems()
      ensures l < |store.target| && n == store.target[l] && n in Members(tree) && n < |store.key|
    {
      LocatorNode(tree, store.key, store.value, store.loc, store.target, l);
      store.target[l]
    }

    /** The locator of the root's element. */
    ghost function Top(): nat
      reads this, store
      requires Valid() && root != Null
    {
      store.loc[root]
    }

    constructor (mem: Store<V>)
      requires mem.Valid()
      ensures Valid() && store == mem
      ensures root == Null && size == 0 && Elems() == map[]
    {
      store := mem;
      root := Null;
      size := 0;
      tree := Leaf;
    }

    /** The number of nodes of the subtree at `n`, counted recursively. */
    method Weight(n: int, ghost t: Tree<nat>) returns (w: nat)
      requires Realizes(n, t, store.left, store.right) && t.Node?
      ensures w == LeftistTree.Weight(t)
      decreases t
    {
      var l, r := store.left[n], store.right[n];
      assert Realizes(l, t.left, store.left, store.right) && Realizes(r, t.right, store.left, store.right);
      if l == Null && r == Null {
        w := 1;
      } else if l == Null && r != Null {
        var wr := Weight(r, t.right);
        w := 1 + wr;
      } else if l != Null && r == Null {
        var wl := Weight(l, t.left);
        w := 1 + wl;
      } else {
        var wr := Weight(r, t.right);
        var wl := Weight(l, t.left);
        w := 1 + wr + wl;
      }
    }

    /** Unites the trees at `r1` and `r2` by relinking their nodes, and returns the
        new root.  The result is laid out exactly as LeftistTree.Merge prescribes;
        no key, value or locator moves, and no node outside the two trees changes. */
    method Merge(r1: int, r2: int, ghost t1: Tree<nat>, ghost t2: Tree<nat>) returns (r: int)
      requires store.Valid()
      requires Realizes(r1, t1, store.left, store.right) && Parented(t1, store.parent) && Distinct(t1)
      requires Realizes(r2, t2, store.left, store.right) && Parented(t2, store.parent) && Distinct(t2)
      requires Members(t1) !! Members(t2)
      modifies store
      ensures store.Valid()
      ensures store.key == old(store.key) && store.value == old(store.value)
      ensures store.loc == old(store.loc) && store.target == old(store.target)
      ensures r == r1 || r == r2
      ensures Realizes(r, LeftistTree.Merge(t1, t2, KeyOf(store.key)), store.left, store.right)
      ensures Parented(LeftistTree.Merge(t1, t2, KeyOf(store.key)), store.parent)
      ensures LinksKeptOutside(Members(t1) + Members(t2), old(store.left), old(store.right), old(store.parent),
                               store.left, store.right, store.parent)
      ensures r != Null ==> 0 <= r < |old(store.parent)| && store.parent[r] == old(store.parent[r])
      decreases LeftistTree.Weight(t1) + LeftistTree.Weight(t2), 1
    {
      if r1 == Null {
        return r2;
      }
      if r2 == Null {
        return r1;
      }
      assert r1 in Members(t1) && r2 in Members(t2);
      if store.key[r1] < store.key[r2] {
        r := Link(r2, r1, t2, t1);
      } else {
        r := Link(r1, r2, t1, t2);
      }
    }

    /** The rest of the source's merge once the winner `a` is known: `b`'s tree
        fills `a`'s empty left slot, or is merged into `a`'s right subtree, after
        which the children of `a` swap if the left one has become the lighter. */
    method Link(a: nat, b: nat, ghost ta: Tree<nat>, ghost tb: Tree<nat>) returns (r: int)
      requires store.Valid()
      requires Realizes(a, ta, store.left, store.right) && Parented(ta, store.parent) && Distinct(ta)
      requires Realizes(b, tb, store.left, store.right) && Parented(tb, store.parent) && Distinct(tb)
      requires Members(ta) !! Members(tb)
      modifies store
      ensures store.Valid()
      ensures store.key == old(store.key) && store.value == old(store.value)
      ensures store.loc == old(store.loc) && store.target == old(store.target)
      ensures r == a && ta.Node?
      ensures Realizes(a, LeftistTree.Link(ta, tb, KeyOf(store.key)), store.left, store.right)
      ensures Parented(LeftistTree.Link(ta, tb, KeyOf(store.key)), store.parent)
      ensures LinksKeptOutside(Members(ta) + Members(tb), old(store.left), old(store.right), old(store.parent),
                               store.left, store.right, store.parent)
      ensures a < |old(store.parent)| && store.parent[a] == old(store.parent[a])
      decreases LeftistTree.Weight(ta) + LeftistTree.Weight(tb), 0
    {
      ghost var key := KeyOf(store.key);
      ghost var left0, right0, parent0 := store.left, store.right, store.parent;
      assert a in Members(ta) && b in Members(tb);
      if store.left[a] == Null {
        store.left := store.left[a := b];
        store.parent := store.parent[b := a];
        AttachLeft(a, ta, b, tb, left0, right0, parent0);
        assert LeftistTree.Link(ta, tb, key) == Node(a, tb, ta.right);
      } else {
        var m := Merge(store.right[a], b, ta.right, tb);
        ghost var left1, right1, parent1 := store.left, store.right, store.parent;
        LinkRight(a, ta, tb, m, store.key, left0, right0, parent0, left1, right1, parent1);
        store.right := store.right[a := m];
        store.parent := store.parent[m := a];
        RestoreLeftist(a, ta.left, LeftistTree.Merge(ta.right, tb, key));
      }
      r := a;
    }

    /** The last step of merge: when the left child of `a` is lighter than its
        right child the two children swap places, and nothing else changes. */
    method RestoreLeftist(a: nat, ghost tl: Tree<nat>, ghost tr: Tree<nat>)
      requires store.Valid() && a < |store.left|
      requires tl.Node? && Realizes(store.left[a], tl, store.left, store.right)
      requires tr.Node? && Realizes(store.right[a], tr, store.left, store.right)
      modifies store
      ensures store.Valid()
      ensures store.key == old(store.key) && store.value == old(store.value)
      ensures store.loc == old(store.loc) && store.target == old(store.target) && store.parent == old(store.parent)
      ensures LeftistTree.Weight(tl) < LeftistTree.Weight(tr) ==>
                store.left == old(store.left)[a := old(store.right[a])] &&
                store.right == old(store.right)[a := old(store.left[a])]
      ensures LeftistTree.Weight(tl) >= LeftistTree.Weight(tr) ==>
                store.left == old(store.left) && store.right == old(store.right)
    {
      var wl := Weight(store.left[a], tl);
      var wr := Weight(store.right[a], tr);
      if wl < wr {
        var temp := store.left[a];
        store.left := store.left[a := store.right[a]];
        store.right := store.right[a := temp];
      }
    }

    /** Appends the right-to-left preorder dump of the subtree at `curr` to `list`. */
    method ListHelper(curr: int, ghost t: Tree<nat>, list: seq<Entry<(int, V)>>)
      returns (out: seq<Entry<(int, V)>>)
      requires |store.value| == |store.key| && Realizes(curr, t, store.left, store.right) && InRange(t, |store.key|)
      ensures out == list + LeftistTree.List(Label(t, store.key, store.value))
      decreases t
    {
      if curr == Null {
        out := list + [Absent];
      } else {
        InRangeChildren(t, |store.key|);
        var w := Weight(curr, t);
        out := list + [Present((store.key[curr], store.value[curr]), w)];
        out := ListHelper(store.right[curr], t.right, out);
        out := ListHelper(store.left[curr], t.left, out);
      }
    }

    /** The number of elements, which is the number of nodes below the root. */
    function Size(): (n: int)
      reads this, store
      requires Valid()
      ensures n == |Elements(tree)| && n == |Elems()|
    {
      WeightCounts(tree);
      LocatorsCount(tree, store.loc, store.target);
      assert Elems().Keys == Locators(tree, store.loc);
      size
    }

    method Clear()
      requires store.Valid()
      modifies this
      ensures Valid() && root == Null && size == 0 && Elems() == map[]
    {
      root := Null;
      size := 0;
      tree := Leaf;
    }

    /** Adds (x, v) as a singleton tree merged into the heap, and returns the
        locator of the new element. */
    method Insert(x: int, v: V) returns (l: nat)
      requires Valid()
      modifies this, store
      ensures Valid()
      ensures size == old(size) + 1
      ensures l !in old(Elems()) && Elems() == old(Elems())[l := (x, v)]
      ensures l == old(|store.target|) && l < |store.target| && store.loc[store.target[l]] == l
      ensures store.key == old(store.key) + [x] && store.value == old(store.value) + [v]
      ensures store.target == old(store.target) + [old(|store.key|)]
      ensures var n: nat := old(|store.key|); Members(tree) == Members(old(tree)) + {n}
      ensures var n: nat := old(|store.key|);
                tree == LeftistTree.Merge(old(tree), Node(n, Leaf, Leaf), KeyOf(store.key))
      ensures ContentsKeptOutside({}, old(store.key), old(store.value), old(store.loc), old(store.target),
                                  store.key, store.value, store.loc, store.target)
      ensures LinksKeptOutside(Members(old(tree)), old(store.left), old(store.right), old(store.parent),
                               store.left, store.right, store.parent)
    {
      ghost var elems0 := Elems();
      ghost var t1, size1 := tree, size;
      ghost var key0, left0, right0, parent0 := store.key, store.left, store.right, store.parent;
      NewSingleton(root, tree, size, store.key, store.left, store.right, store.parent, x);
      NewSingletonContents(tree, store.key, store.value, store.loc, store.target, x, v);
      var newNode := store.NewNode(x, v);
      ghost var single := Node(newNode, Leaf, Leaf);
      ghost var left1, right1, parent1 := store.left, store.right, store.parent;
      MergeContents(tree, single, store.key, store.value, store.loc, store.target);
      root := Merge(root, newNode, tree, single);
      ShapedMerge(old(root), t1, size1, newNode, single, 1, store.key, left1, right1, parent1,
                  root, store.left, store.right, store.parent);
      tree := LeftistTree.Merge(tree, single, KeyOf(store.key));
      size := size + 1;
      UnionSingleton(elems0, newNode, (x, v));
      KeptOutsideTrans({}, Members(t1) + {newNode}, Members(t1) + {newNode},
                       left0, right0, parent0, left1, right1, parent1,
                       store.left, store.right, store.parent);
      l := store.loc[newNode];
    }

    /** Moves all of `h2`'s elements into this heap and empties `h2`; nothing
        happens when `h2` is this heap or null. */
    method MergeWith(h2: WtLeftHeap?<V>)
      requires Valid()
      requires h2 != null && h2 != this ==>
                 h2.store == store && h2.Valid() && Members(tree) !! Members(h2.tree)
      modifies this, store, h2
      ensures Valid()
      ensures h2 == null || h2 == this ==>
                root == old(root) && size == old(size) && tree == old(tree) && Elems() == old(Elems()) &&
                store.left == old(store.left) && store.right == old(store.right) &&
                store.parent == old(store.parent)
      ensures h2 != null && h2 != this ==>
                size == old(size) + old(h2.size) &&
                old(Elems()).Keys !! old(h2.Elems()).Keys &&
                Elems() == old(Elems()) + old(h2.Elems()) &&
                h2.Valid() && h2.root == Null && h2.size == 0 && h2.Elems() == map[]
      ensures h2 != null && h2 != this ==>
                tree == LeftistTree.Merge(old(tree), old(h2.tree), KeyOf(store.key)) &&
                Members(tree) == Members(old(tree)) + Members(old(h2.tree)) &&
                LinksKeptOutside(Members(old(tree)) + Members(old(h2.tree)),
                                 old(store.left), old(store.right), old(store.parent),
                                 store.left, store.right, store.parent)
      ensures store.key == old(store.key) && store.value == old(store.value)
      ensures store.loc == old(store.loc) && store.target == old(store.target)
    {
      if h2 == this || h2 == null {
      } else {
        ghost var t1, t2 := tree, h2.tree;
        ghost var left0, right0, parent0 := store.left, store.right, store.parent;
        MergeContents(t1, t2, store.key, store.value, store.loc, store.target);
        root := Merge(root, h2.root, t1, t2);
        ShapedMerge(old(root), t1, size, h2.root, t2, h2.size, store.key, left0, right0, parent0,
                    root, store.left, store.right, store.parent);
        tree := LeftistTree.Merge(t1, t2, KeyOf(store.key));
        size := size + h2.size;
        assert Valid() && Elems() == old(Elems()) + old(h2.Elems());
        h2.Clear();
      }
    }

    /** Removes the root and returns its value, which has the largest key; an
        empty heap reports EmptyHeap and is left as it was. */
    method Extract() returns (res: Extracted<V>)
      requires Valid()
      modifies this, store
      ensures Valid()
      ensures old(root) == Null <==> res == EmptyHeap
      ensures old(root) == Null ==> root == Null && size == old(size) && Elems() == old(Elems())
      ensures old(root) != Null ==>
                old(Top()) in old(Elems()) &&
                res == Ok(old(Elems())[old(Top())].1) &&
                (forall l | l in old(Elems()) :: old(Elems())[l].0 <= old(Elems())[old(Top())].0) &&
                Elems() == old(Elems()) - {old(Top())} &&
                size == old(size) - 1 &&
                old(tree).Node? &&
                tree == LeftistTree.Merge(old(tree).left, old(tree).right, KeyOf(store.key)) &&
                Members(tree) == Members(old(tree)) - {old(tree).data}
      ensures LinksKeptOutside(Members(old(tree)), old(store.left), old(store.right), old(store.parent),
                               store.left, store.right, store.parent)
      ensures store.key == old(store.key) && store.value == old(store.value)
      ensures store.loc == old(store.loc) && store.target == old(store.target)
    {
      if root == Null {
        return EmptyHeap;
      }
      ghost var t := tree;
      ContentsBelowRoot(root, t, store.key, store.value, store.loc, store.target);
      var answer := store.value[root];
      DetachRoot();
      ContentsRemoveRoot(t, tree, store.key, store.value, store.loc, store.target);
      res := Ok(answer);
    }

    /** The structural half of extract: the root's children lose their parent
        link and are merged into the new heap; the old root node is dropped. */
    method DetachRoot()
      requires Valid() && root != Null
      modifies this, store
      ensures Valid() && old(tree).Node?
      ensures tree == LeftistTree.Merge(old(tree).left, old(tree).right, KeyOf(store.key))
      ensures Members(tree) == Members(old(tree)) - {old(tree).data}
      ensures size == old(size) - 1
      ensures store.key == old(store.key) && store.value == old(store.value)
      ensures store.loc == old(store.loc) && store.target == old(store.target)
      ensures LinksKeptOutside(Members(old(tree)), old(store.left), old(store.right), old(store.parent),
                               store.left, store.right, store.parent)
    {
      ghost var t := tree;
      ghost var left0, right0, parent0 := store.left, store.right, store.parent;
      DetachShaped(root, t, size, store.key, left0, right0, parent0);
      if store.right[root] != Null {
        store.parent := store.parent[store.right[root] := Null];
      }
      if store.left[root] != Null {
        store.parent := store.parent[store.left[root] := Null];
      }
      ghost var parent1 := store.parent;
      var l, r := store.left[root], store.right[root];
      root := Merge(l, r, t.left, t.right);
      ShapedMerge(l, t.left, LeftistTree.Weight(t.left), r, t.right, LeftistTree.Weight(t.right), store.key,
                  left0, right0, parent1, root, store.left, store.right, store.parent);
      KeptOutsideTrans(Members(t), Members(t.left) + Members(t.right), Members(t),
                       left0, right0, parent0, left0, right0, parent1,
                       store.left, store.right, store.parent);
      tree := LeftistTree.Merge(t.left, t.right, KeyOf(store.key));
      size := size - 1;
      RootMembers(t);
    }

    /** The swap both phases of updateKey perform: nodes `a` and `b` of `t`
        exchange key, value and locator, so that locator `l`, which denoted `a`,
        follows its element to `b`.  The elements of `t` stay as they were. */
    method Exchange(a: nat, b: nat, ghost t: Tree<nat>, ghost l: nat)
      requires store.Valid() && InRange(t, |store.key|) && a in Members(t) && b in Members(t) && a != b
      requires l < |store.target| && store.target[l] == a
      modifies store
      ensures store.Valid()
      ensures store.left == old(store.left) && store.right == old(store.right) && store.parent == old(store.parent)
      ensures store.key == old(store.key)[a := old(store.key[b])][b := old(store.key[a])]
      ensures store.value == old(store.value)[a := old(store.value[b])][b := old(store.value[a])]
      ensures store.loc == old(store.loc)[a := old(store.loc[b])][b := old(store.loc[a])]
      ensures store.target[l] == b
      ensures Exchanged(a, b, old(store.key), old(store.value), old(store.loc), old(store.target),
                        store.key, store.value, store.loc, store.target)
      ensures store.Elems(t) == old(store.Elems(t))
      ensures ContentsKeptOutside({a, b}, old(store.key), old(store.value), old(store.loc), old(store.target),
                                  store.key, store.value, store.loc, store.target)
    {
      ghost var key0, value0, loc0, target0 := store.key, store.value, store.loc, store.target;
      assert loc0[a] == l && loc0[b] != l;
      store.SwapContents(a, b);
      ContentsExchange(t, key0, value0, loc0, target0, store.key, store.value, store.loc, store.target, a, b);
    }

    /** The exchange both phases of updateKey perform, seen along the walk `p`:
        `c`, the `|done|`-th node of the walk, swaps contents with `d`, the
        next one.  The rotation along the walk advances by one node, and the
        nodes touched since the walk began grow by `d`. */
    method ExchangeOnWalk(c: nat, d: nat, l: nat, ghost key0: seq<int>, ghost value0: seq<V>,
                          ghost loc0: seq<nat>, ghost target0: seq<nat>,
                          ghost p: seq<nat>, ghost done: seq<nat>, ghost seen: set<nat>)
      requires store.Valid() && InRange(tree, |store.key|) && c in Members(tree) && d in Members(tree)
      requires l < |store.target| && store.target[l] == c
      requires |done| + 1 < |p| && p[|done|] == c && p[|done| + 1] == d && c != d
      requires forall i | 0 <= i < |done| :: p[i] != c && p[i] != d
      requires d !in seen && c in seen
      requires ContentsKeptOutside(seen, key0, value0, loc0, target0, store.key, store.value, store.loc, store.target)
      requires Rotated(p, |done|, key0, value0, loc0, store.key, store.value, store.loc)
      modifies store
      ensures store.Valid()
      ensures store.left == old(store.left) && store.right == old(store.right) && store.parent == old(store.parent)
      ensures store.key == old(store.key)[c := old(store.key[d])][d := old(store.key[c])]
      ensures store.target[l] == d && store.Elems(tree) == old(store.Elems(tree))
      ensures Exchanged(c, d, old(store.key), old(store.value), old(store.loc), old(store.target),
                        store.key, store.value, store.loc, store.target)
      ensures Rotated(p, |done| + 1, key0, value0, loc0, store.key, store.value, store.loc)
      ensures ContentsKeptOutside(seen + {d}, key0, value0, loc0, target0,
                                  store.key, store.value, store.loc, store.target)
    {
      ghost var key1, value1, loc1, target1 := store.key, store.value, store.loc, store.target;
      Exchange(c, d, tree, l);
      RotatedStep(p, |done|, key0, value0, loc0, key1, value1, loc1, store.key, store.value, store.loc);
      ContentsKeptTrans(seen, {c, d}, seen + {d}, key0, value0, loc0, target0,
                        key1, value1, loc1, target1, store.key, store.value, store.loc, store.target);
    }

    /** Gives the element that locator `l` denotes the key `x`, then restores heap
        order by moving the new key up past smaller parents or, when it did not
        move up, down past larger children.  Links never change: contents and
        locators travel. */
    method UpdateKey(l: nat, x: int)
      requires Valid() && l in Elems()
      modifies store
      ensures Valid()
      ensures Elems() == old(Elems())[l := (x, old(Elems())[l].1)]
      ensures store.left == old(store.left) && store.right == old(store.right) && store.parent == old(store.parent)
      ensures var c := old(NodeOf(l));
              var key1 := old(store.key)[c := x];
              var p := Walk(root, tree, key1, old(store.left), old(store.right), old(store.parent), c, x);
              EndsAt(store.target, l, p) &&
              var before := Along(p, key1, old(store.value), old(store.loc));
              Along(p, store.key, store.value, store.loc) == before[1..] + [before[0]] &&
              ContentsKeptOutside(Visited(p), old(store.key), old(store.value), old(store.loc), old(store.target),
                                  store.key, store.value, store.loc, store.target)
      ensures var c := old(NodeOf(l));
              var key1 := old(store.key)[c := x];
              var p := Walk(root, tree, key1, old(store.left), old(store.right), old(store.parent), c, x);
              |p| >= 2 ==>
                store.key[c] == key1[p[1]] && store.value[c] == old(store.value)[p[1]] &&
                store.loc[c] == old(store.loc)[p[1]]
      ensures ContentsKeptOutside(Members(tree), old(store.key), old(store.value), old(store.loc), old(store.target),
                                  store.key, store.value, store.loc, store.target)
    {
      ContentsSetKey(tree, store.key, store.value, store.loc, store.target, l, x);
      ghost var key0, value0, loc0, target0 := store.key, store.value, store.loc, store.target;
      var node := store.target[l];
      StartUpdate(root, tree, store.key, store.left, store.right, store.parent, node, x);
      store.key := store.key[node := x];
      ghost var key1 := store.key;
      ghost var p := Sift(x, l);
      ContentsKeptTrans({node}, Visited(p), Visited(p), key0, value0, loc0, target0,
                        key1, value0, loc0, target0, store.key, store.value, store.loc, store.target);
      ContentsKeptTrans(Visited(p), {}, Members(tree), key0, value0, loc0, target0,
                        store.key, store.value, store.loc, store.target,
                        store.key, store.value, store.loc, store.target);
      EdgesOrderedIsHeapOrdered(root, tree, store.key, store.left, store.right);
      if |p| >= 2 {
        RotatedHead(p, key1, value0, loc0, store.key, store.value, store.loc);
      }
    }

    /** Both phases of updateKey once the new key `x` is written: the upward
        phase when the parent's key is strictly smaller, and the downward phase
        only when the upward one did not run. */
    method Sift(x: int, l: nat) returns (ghost p: seq<nat>)
      requires store.Valid() && Linked(root, tree, store.left, store.right, store.parent)
      requires InRange(tree, |store.key|) && l < |store.target| && store.target[l] in Members(tree)
      requires store.key[store.target[l]] == x
      requires UpMove(store.key, store.parent, store.target[l], x) ==>
                 EdgesOrdered(tree, store.key, store.left, store.right, Null, store.target[l])
      requires !UpMove(store.key, store.parent, store.target[l], x) ==>
                 EdgesOrdered(tree, store.key, store.left, store.right, store.target[l], Null)
      requires BelowGrandparent(store.key, store.left, store.right, store.parent, store.target[l])
      modifies store
      ensures store.Valid() && |store.key| == |old(store.key)|
      ensures store.left == old(store.left) && store.right == old(store.right) && store.parent == old(store.parent)
      ensures store.Elems(tree) == old(store.Elems(tree))
      ensures EdgesOrdered(tree, store.key, store.left, store.right, Null, Null)
      ensures p == Walk(root, tree, old(store.key), store.left, store.right, store.parent, old(store.target[l]), x)
      ensures EndsAt(store.target, l, p)
      ensures var before := Along(p, old(store.key), old(store.value), old(store.loc));
              Along(p, store.key, store.value, store.loc) == before[1..] + [before[0]]
      ensures ContentsKeptOutside(Visited(p), old(store.key), old(store.value), old(store.loc), old(store.target),
                                  store.key, store.value, store.loc, store.target)
    {
      var node := store.target[l];
      NodeLinks(root, tree, store.left, store.right, store.parent, node);
      if store.parent[node] != Null && x > store.key[store.parent[node]] {
        p := SiftUp(x, l);
      } else {
        p := SiftDown(x, l);
      }
    }

    /** The upward phase of updateKey: while the key `x`, held by the node that
        locator `l` denotes, beats its parent's key, the two nodes exchange
        contents.  The nodes visited are `p`, UpWalk from the start node; only
        they change, and `l` ends on the last of them. */
    method SiftUp(x: int, l: nat) returns (ghost p: seq<nat>)
      requires store.Valid() && Linked(root, tree, store.left, store.right, store.parent)
      requires InRange(tree, |store.key|) && l < |store.target| && store.target[l] in Members(tree)
      requires store.key[store.target[l]] == x
      requires EdgesOrdered(tree, store.key, store.left, store.right, Null, store.target[l])
      requires BelowGrandparent(store.key, store.left, store.right, store.parent, store.target[l])
      modifies store
      ensures store.Valid() && |store.key| == |old(store.key)|
      ensures store.left == old(store.left) && store.right == old(store.right) && store.parent == old(store.parent)
      ensures store.Elems(tree) == old(store.Elems(tree))
      ensures EdgesOrdered(tree, store.key, store.left, store.right, Null, Null)
      ensures p == UpWalk(root, tree, old(store.key), store.left, store.right, store.parent, old(store.target[l]), x)
      ensures EndsAt(store.target, l, p)
      ensures var before := Along(p, old(store.key), old(store.value), old(store.loc));
              Along(p, store.key, store.value, store.loc) == before[1..] + [before[0]]
      ensures ContentsKeptOutside(Visited(p), old(store.key), old(store.value), old(store.loc), old(store.target),
                                  store.key, store.value, store.loc, store.target)
    {
      ghost var t, L, R, P := tree, store.left, store.right, store.parent;
      ghost var key0, value0, loc0, target0 := store.key, store.value, store.loc, store.target;
      var start: nat := store.target[l];
      p := UpWalk(root, t, key0, L, R, P, start, x);
      UpTrailStart(root, t, key0, L, R, P, x, start);
      var curr, done, seen := Ascend(x, l, start, key0, value0, loc0, target0, p, [], {start});
      RotatedAlong(p, key0, value0, loc0, store.key, store.value, store.loc);
      UpDone(root, t, store.key, L, R, P, curr);
    }

    /** The loop of the upward phase, from the node `c` that holds `x` after
        the swaps along `done0`: it runs while the parent's key is smaller, and
        ends on the last node of the walk `p`, with the rotation along `p`
        complete. */
    method Ascend(x: int, l: nat, c: nat, ghost key0: seq<int>, ghost value0: seq<V>,
                  ghost loc0: seq<nat>, ghost target0: seq<nat>,
                  ghost p: seq<nat>, ghost done0: seq<nat>, ghost seen0: set<nat>)
      returns (curr: nat, ghost done: seq<nat>, ghost seen: set<nat>)
      requires store.Valid() && Linked(root, tree, store.left, store.right, store.parent)
      requires InRange(tree, |store.key|) && c in Members(tree)
      requires l < |store.target| && store.target[l] == c && store.key[c] == x
      requires EdgesOrdered(tree, store.key, store.left, store.right, Null, c)
      requires BelowGrandparent(store.key, store.left, store.right, store.parent, c)
      requires UpTrail(root, tree, key0, store.left, store.right, store.parent, x, p, done0, seen0, c)
      requires ContentsKeptOutside(seen0, key0, value0, loc0, target0, store.key, store.value, store.loc, store.target)
      requires Rotated(p, |done0|, key0, value0, loc0, store.key, store.value, store.loc)
      modifies store
      ensures store.Valid() && |store.key| == |old(store.key)|
      ensures store.left == old(store.left) && store.right == old(store.right) && store.parent == old(store.parent)
      ensures curr in Members(tree) && store.target[l] == curr && store.key[curr] == x
      ensures EdgesOrdered(tree, store.key, store.left, store.right, Null, curr)
      ensures store.parent[curr] != Null ==>
                0 <= store.parent[curr] < |store.key| && x <= store.key[store.parent[curr]]
      ensures store.Elems(tree) == old(store.Elems(tree))
      ensures p[|p| - 1] == curr && Visited(p) == seen && |done| == |p| - 1
      ensures ContentsKeptOutside(seen, key0, value0, loc0, target0, store.key, store.value, store.loc, store.target)
      ensures Rotated(p, |done|, key0, value0, loc0, store.key, store.value, store.loc)
    {
      ghost var t, L, R, P := tree, store.left, store.right, store.parent;
      ghost var elems := store.Elems(t);
      curr, done, seen := c, done0, seen0;
      var swap := store.parent[curr];
      while swap != Null && x > store.key[swap]
        invariant store.Valid() && store.left == L && store.right == R && store.parent == P
        invariant |store.key| == |old(store.key)|
        invariant curr in Members(t) && swap == P[curr] && store.key[curr] == x && store.target[l] == curr
        invariant EdgesOrdered(t, store.key, L, R, Null, curr)
        invariant BelowGrandparent(store.key, L, R, P, curr)
        invariant store.Elems(t) == elems
        invariant UpTrail(root, t, key0, L, R, P, x, p, done, seen, curr)
        invariant ContentsKeptOutside(seen, key0, value0, loc0, target0, store.key, store.value, store.loc, store.target)
        invariant Rotated(p, |done|, key0, value0, loc0, store.key, store.value, store.loc)
        decreases Depth(t, curr)
      {
        done, seen := SwapUp(curr, x, l, key0, value0, loc0, target0, p, done, seen);
        curr := swap;
        swap := store.parent[swap];
      }
      UpTrailNext(root, t, key0, L, R, P, x, p, done, seen, curr);
      UpTrailEnd(root, t, key0, L, R, P, x, p, done, seen, curr);
    }

    /** One step of the upward phase: the node `c` holding `x` exchanges
        contents with its parent, whose key is smaller; the loose node is now
        the parent, one level higher, and the trail of visited nodes grows by
        it. */
    method SwapUp(c: nat, x: int, l: nat, ghost key0: seq<int>, ghost value0: seq<V>, ghost loc0: seq<nat>,
                  ghost target0: seq<nat>, ghost p: seq<nat>, ghost done: seq<nat>, ghost seen: set<nat>)
      returns (ghost done': seq<nat>, ghost seen': set<nat>)
      requires store.Valid() && InRange(tree, |store.key|)
      requires c in Members(tree) && store.key[c] == x && l < |store.target| && store.target[l] == c
      requires EdgesOrdered(tree, store.key, store.left, store.right, Null, c)
      requires BelowGrandparent(store.key, store.left, store.right, store.parent, c)
      requires UpTrail(root, tree, key0, store.left, store.right, store.parent, x, p, done, seen, c)
      requires ContentsKeptOutside(seen, key0, value0, loc0, target0, store.key, store.value, store.loc, store.target)
      requires Rotated(p, |done|, key0, value0, loc0, store.key, store.value, store.loc)
      requires store.parent[c] != Null && x > store.key[store.parent[c]]
      modifies store
      ensures store.Valid() && |store.key| == |old(store.key)|
      ensures store.left == old(store.left) && store.right == old(store.right) && store.parent == old(store.parent)
      ensures 0 <= store.parent[c] &&
              Exchanged(c, store.parent[c], old(store.key), old(store.value), old(store.loc), old(store.target),
                        store.key, store.value, store.loc, store.target)
      ensures Rotated(p, |done'|, key0, value0, loc0, store.key, store.value, store.loc)
      ensures var d := store.parent[c];
              0 <= d && d in Members(tree) && store.key[d] == x && store.target[l] == d &&
              Depth(tree, d) < Depth(tree, c) &&
              EdgesOrdered(tree, store.key, store.left, store.right, Null, d) &&
              BelowGrandparent(store.key, store.left, store.right, store.parent, d) &&
              UpTrail(root, tree, key0, store.left, store.right, store.parent, x, p, done', seen', d) &&
              ContentsKeptOutside(seen', key0, value0, loc0, target0, store.key, store.value, store.loc, store.target)
      ensures store.Elems(tree) == old(store.Elems(tree))
    {
      ghost var t, L, R, P := tree, store.left, store.right, store.parent;
      var d := store.parent[c];
      UpStep(root, t, store.key, L, R, P, c);
      ParentDepth(root, t, L, R, P, c);
      UpTrailNext(root, t, key0, L, R, P, x, p, done, seen, c);
      UpTrailStep(root, t, key0, L, R, P, x, p, done, seen, c);
      ExchangeOnWalk(c, d, l, key0, value0, loc0, target0, p, done, seen);
      done', seen' := done + [c], seen + {d};
    }

    /** The downward phase of updateKey: while a child of the node holding the
        key `x` has a larger key, the node exchanges contents with the child
        ChildToSwap picks.  The nodes visited are `p`, DownWalk from the start
        node; only they change, and `l` ends on the last of them. */
    method SiftDown(x: int, l: nat) returns (ghost p: seq<nat>)
      requires store.Valid() && Linked(root, tree, store.left, store.right, store.parent)
      requires InRange(tree, |store.key|) && l < |store.target| && store.target[l] in Members(tree)
      requires store.key[store.target[l]] == x
      requires EdgesOrdered(tree, store.key, store.left, store.right, store.target[l], Null)
      requires BelowGrandparent(store.key, store.left, store.right, store.parent, store.target[l])
      modifies store
      ensures store.Valid() && |store.key| == |old(store.key)|
      ensures store.left == old(store.left) && store.right == old(store.right) && store.parent == old(store.parent)
      ensures store.Elems(tree) == old(store.Elems(tree))
      ensures EdgesOrdered(tree, store.key, store.left, store.right, Null, Null)
      ensures p == DownWalk(root, tree, old(store.key), store.left, store.right, store.parent, old(store.target[l]), x)
      ensures EndsAt(store.target, l, p)
      ensures var before := Along(p, old(store.key), old(store.value), old(store.loc));
              Along(p, store.key, store.value, store.loc) == before[1..] + [before[0]]
      ensures ContentsKeptOutside(Visited(p), old(store.key), old(store.value), old(store.loc), old(store.target),
                                  store.key, store.value, store.loc, store.target)
    {
      ghost var t, L, R, P := tree, store.left, store.right, store.parent;
      ghost var key0, value0, loc0, target0 := store.key, store.value, store.loc, store.target;
      var start: nat := store.target[l];
      p := DownWalk(root, t, key0, L, R, P, start, x);
      DownTrailStart(root, t, key0, L, R, P, x, start);
      var curr, done, seen := Descend(x, l, start, key0, value0, loc0, target0, p, [], {start});
      DownTrailNext(root, t, key0, L, R, P, x, p, done, seen, curr);
      DownTrailEnd(root, t, key0, L, R, P, x, p, done, seen, curr);
      RotatedAlong(p, key0, value0, loc0, store.key, store.value, store.loc);
      SettledChildrenBelow(key0, store.key, L, R, curr, x, seen);
      DownDone(t, store.key, L, R, curr);
    }

    /** The loop of the downward phase, from the node `c` that holds `x` after
        the swaps along `done0`: it runs until ChildToSwap picks no child, and
        keeps the trail, the frame and the rotation along the walk `p`. */
    method Descend(x: int, l: nat, c: nat, ghost key0: seq<int>, ghost value0: seq<V>,
                   ghost loc0: seq<nat>, ghost target0: seq<nat>,
                   ghost p: seq<nat>, ghost done0: seq<nat>, ghost seen0: set<nat>)
      returns (curr: nat, ghost done: seq<nat>, ghost seen: set<nat>)
      requires store.Valid() && Linked(root, tree, store.left, store.right, store.parent)
      requires InRange(tree, |store.key|) && c in Members(tree)
      requires l < |store.target| && store.target[l] == c && store.key[c] == x
      requires EdgesOrdered(tree, store.key, store.left, store.right, c, Null)
      requires BelowGrandparent(store.key, store.left, store.right, store.parent, c)
      requires DownTrail(root, tree, key0, store.left, store.right, store.parent, x, p, done0, seen0, c)
      requires ContentsKeptOutside(seen0, key0, value0, loc0, target0, store.key, store.value, store.loc, store.target)
      requires Rotated(p, |done0|, key0, value0, loc0, store.key, store.value, store.loc)
      modifies store
      ensures store.Valid() && |store.key| == |old(store.key)|
      ensures store.left == old(store.left) && store.right == old(store.right) && store.parent == old(store.parent)
      ensures curr in Members(tree) && store.target[l] == curr && store.key[curr] == x
      ensures EdgesOrdered(tree, store.key, store.left, store.right, curr, Null)
      ensures store.Elems(tree) == old(store.Elems(tree))
      ensures DownTrail(root, tree, key0, store.left, store.right, store.parent, x, p, done, seen, curr)
      ensures Settled(key0, store.left, store.right, curr, x)
      ensures ContentsKeptOutside(seen, key0, value0, loc0, target0, store.key, store.value, store.loc, store.target)
      ensures Rotated(p, |done|, key0, value0, loc0, store.key, store.value, store.loc)
    {
      ghost var t, L, R, P := tree, store.left, store.right, store.parent;
      ghost var elems := store.Elems(t);
      curr, done, seen := c, done0, seen0;
      var endCheck := 0;
      NodeLinks(root, t, L, R, P, curr);
      while endCheck == 0 && (store.right[curr] != Null || store.left[curr] != Null)
        invariant store.Valid() && store.left == L && store.right == R && store.parent == P
        invariant |store.key| == |old(store.key)|
        invariant curr in Members(t) && store.target[l] == curr && store.key[curr] == x
        invariant EdgesOrdered(t, store.key, L, R, curr, Null) && BelowGrandparent(store.key, L, R, P, curr)
        invariant store.Elems(t) == elems
        invariant DownTrail(root, t, key0, L, R, P, x, p, done, seen, curr)
        invariant endCheck == 0 || endCheck == 1
        invariant endCheck == 1 ==> Settled(key0, L, R, curr, x)
        invariant ContentsKeptOutside(seen, key0, value0, loc0, target0, store.key, store.value, store.loc, store.target)
        invariant Rotated(p, |done|, key0, value0, loc0, store.key, store.value, store.loc)
        decreases 1 - endCheck, LeftistTree.Weight(t) - Depth(t, curr)
      {
        curr, endCheck, done, seen := SiftDownStep(curr, x, l, key0, value0, loc0, target0, p, done, seen);
      }
      if endCheck == 0 {
        DownTrailNext(root, t, key0, L, R, P, x, p, done, seen, curr);
      }
    }

    /** One round of the downward phase: ChildToSwap picks the child of `c` to
        exchange contents with, and the key moves down into it; when it picks
        none, the phase ends (`endCheck` becomes 1) and the key stays at `c`. */
    method SiftDownStep(c: nat, x: int, l: nat, ghost key0: seq<int>, ghost value0: seq<V>,
                        ghost loc0: seq<nat>, ghost target0: seq<nat>,
                        ghost p: seq<nat>, ghost done: seq<nat>, ghost seen: set<nat>)
      returns (next: nat, endCheck: int, ghost done': seq<nat>, ghost seen': set<nat>)
      requires store.Valid() && Linked(root, tree, store.left, store.right, store.parent)
      requires InRange(tree, |store.key|) && c in Members(tree)
      requires l < |store.target| && store.target[l] == c && store.key[c] == x
      requires EdgesOrdered(tree, store.key, store.left, store.right, c, Null)
      requires BelowGrandparent(store.key, store.left, store.right, store.parent, c)
      requires DownTrail(root, tree, key0, store.left, store.right, store.parent, x, p, done, seen, c)
      requires ContentsKeptOutside(seen, key0, value0, loc0, target0, store.key, store.value, store.loc, store.target)
      requires Rotated(p, |done|, key0, value0, loc0, store.key, store.value, store.loc)
      modifies store
      ensures store.Valid() && |store.key| == |old(store.key)|
      ensures store.left == old(store.left) && store.right == old(store.right) && store.parent == old(store.parent)
      ensures next in Members(tree) && store.target[l] == next && store.key[next] == x
      ensures endCheck == 0 ==>
                Exchanged(c, next, old(store.key), old(store.value), old(store.loc), old(store.target),
                          store.key, store.value, store.loc, store.target)
      ensures endCheck == 1 ==>
                store.key == old(store.key) && store.value == old(store.value) &&
                store.loc == old(store.loc) && store.target == old(store.target)
      ensures Rotated(p, |done'|, key0, value0, loc0, store.key, store.value, store.loc)
      ensures EdgesOrdered(tree, store.key, store.left, store.right, next, Null)
      ensures BelowGrandparent(store.key, store.left, store.right, store.parent, next)
      ensures store.Elems(tree) == old(store.Elems(tree))
      ensures DownTrail(root, tree, key0, store.left, store.right, store.parent, x, p, done', seen', next)
      ensures ContentsKeptOutside(seen', key0, value0, loc0, target0, store.key, store.value, store.loc, store.target)
      ensures endCheck == 0 ==> Depth(tree, c) < Depth(tree, next) < LeftistTree.Weight(tree)
      ensures endCheck == 1 ==> next == c && Settled(key0, store.left, store.right, c, x)
      ensures endCheck == 0 || endCheck == 1
    {
      ghost var t, L, R, P := tree, store.left, store.right, store.parent;
      NodeLinks(root, t, L, R, P, c);
      DownTrailNext(root, t, key0, L, R, P, x, p, done, seen, c);
      ChildToSwapKeys(key0, store.key, L, R, c, x);
      var path := ChildToSwap(store.key, store.left, store.right, c, x);
      if path != 0 {
        var swap := if path == 1 then store.right[c] else store.left[c];
        done', seen' := SwapDown(c, swap, x, l, key0, value0, loc0, target0, p, done, seen);
        next, endCheck := swap, 0;
      } else {
        next, endCheck, done', seen' := c, 1, done, seen;
      }
    }

    /** One step of the downward phase: the node `c` holding `x` exchanges
        contents with its child `d`, whose key is the larger of the two
        children's and beats `x`; the loose node is now `d`, one level lower,
        and the trail of visited nodes grows by it. */
    method SwapDown(c: nat, d: int, x: int, l: nat, ghost key0: seq<int>, ghost value0: seq<V>,
                    ghost loc0: seq<nat>, ghost target0: seq<nat>,
                    ghost p: seq<nat>, ghost done: seq<nat>, ghost seen: set<nat>)
      returns (ghost done': seq<nat>, ghost seen': set<nat>)
      requires store.Valid() && Linked(root, tree, store.left, store.right, store.parent)
      requires InRange(tree, |store.key|) && c in Members(tree)
      requires l < |store.target| && store.target[l] == c && c < |store.key| && store.key[c] == x
      requires EdgesOrdered(tree, store.key, store.left, store.right, c, Null)
      requires BelowGrandparent(store.key, store.left, store.right, store.parent, c)
      requires DownTrail(root, tree, key0, store.left, store.right, store.parent, x, p, done, seen, c)
      requires ContentsKeptOutside(seen, key0, value0, loc0, target0, store.key, store.value, store.loc, store.target)
      requires store.left[c] != Null ==> 0 <= store.left[c] < |key0|
      requires store.right[c] != Null ==> 0 <= store.right[c] < |key0|
      requires ChildToSwap(key0, store.left, store.right, c, x) != 0
      requires ChildToSwap(store.key, store.left, store.right, c, x) == ChildToSwap(key0, store.left, store.right, c, x)
      requires d == if ChildToSwap(key0, store.left, store.right, c, x) == 1 then store.right[c] else store.left[c]
      requires Rotated(p, |done|, key0, value0, loc0, store.key, store.value, store.loc)
      modifies store
      ensures store.Valid() && |store.key| == |old(store.key)|
      ensures store.left == old(store.left) && store.right == old(store.right) && store.parent == old(store.parent)
      ensures 0 <= d &&
              Exchanged(c, d, old(store.key), old(store.value), old(store.loc), old(store.target),
                        store.key, store.value, store.loc, store.target)
      ensures Rotated(p, |done'|, key0, value0, loc0, store.key, store.value, store.loc)
      ensures 0 <= d && d in Members(tree) && store.target[l] == d && store.key[d] == x
      ensures EdgesOrdered(tree, store.key, store.left, store.right, d, Null)
      ensures BelowGrandparent(store.key, store.left, store.right, store.parent, d)
      ensures store.Elems(tree) == old(store.Elems(tree))
      ensures Depth(tree, c) < Depth(tree, d) < LeftistTree.Weight(tree)
      ensures DownTrail(root, tree, key0, store.left, store.right, store.parent, x, p, done', seen', d)
      ensures ContentsKeptOutside(seen', key0, value0, loc0, target0, store.key, store.value, store.loc, store.target)
    {
      ghost var t, L, R, P := tree, store.left, store.right, store.parent;
      DownTrailStep(root, t, key0, L, R, P, x, p, done, seen, c, d);
      DownStep(root, t, store.key, L, R, P, c, d);
      ParentDepth(root, t, L, R, P, d);
      ExchangeOnWalk(c, d, l, key0, value0, loc0, target0, p, done, seen);
      done', seen' := done + [c], seen + {d};
    }

    /** The root's key, the largest of all, or None on an empty heap. */
    function PeekKey(): (k: Option<int>)
      reads this, store
      requires Valid()
      ensures k.None? <==> root == Null
      ensures k.None? ==> Elems() == map[]
      ensures k.Some? ==> Top() in Elems() && Elems()[Top()].0 == k.value &&
                          forall l | l in Elems() :: Elems()[l].0 <= k.value
    {
      if root == Null then None
      else
        ContentsBelowRoot(root, tree, store.key, store.value, store.loc, store.target);
        Some(store.key[root])
    }

    /** The root's value, that of an element with the largest key, or None on an
        empty heap. */
    function PeekValue(): (v: Option<V>)
      reads this, store
      requires Valid()
      ensures v.None? <==> root == Null
      ensures v.Some? ==> Top() in Elems() && Elems()[Top()].1 == v.value &&
                          forall l | l in Elems() :: Elems()[l].0 <= Elems()[Top()].0
    {
      if root == Null then None
      else
        ContentsBelowRoot(root, tree, store.key, store.value, store.loc, store.target);
        Some(store.value[root])
    }

    /** The debug dump of the whole heap: 2n + 1 tokens for n elements, and
        exactly one absent marker for an empty heap. */
    method List() returns (out: seq<Entry<(int, V)>>)
      requires Valid()
      ensures out == LeftistTree.List(Label(tree, store.key, store.value))
      ensures |out| == 2 * size + 1
      ensures root == Null ==> out == [Absent]
    {
      out := ListHelper(root, tree, []);
    }
  }

  /** Inserting into heap `h` leaves a second heap `other` on the same store
      intact: `other` stays valid, keeps its elements, and its nodes stay
      disjoint from those of `h`. */
  method InsertBeside<V>(h: WtLeftHeap<V>, other: WtLeftHeap<V>, x: int, v: V) returns (l: nat)
    requires h != other && h.store == other.store && h.Valid() && other.Valid()
    requires Members(h.tree) !! Members(other.tree)
    modifies h, h.store
    ensures h.Valid() && h.size == old(h.size) + 1
    ensures h.Elems() == old(h.Elems())[l := (x, v)] && l !in old(h.Elems())
    ensures other.Valid() && other.size == old(other.size)
    ensures other.Elems() == old(other.Elems()) && l !in other.Elems()
    ensures Members(h.tree) !! Members(other.tree)
  {
    var mem := h.store;
    ghost var key, value, left, right := mem.key, mem.value, mem.left, mem.right;
    ghost var parent, loc, target := mem.parent, mem.loc, mem.target;
    ghost var e, t := other.Elems(), h.tree;
    assert Shaped(other.root, other.tree, other.size, key, left, right, parent);
    l := h.Insert(x, v);
    HeapUntouched(other.root, other.tree, other.size, Members(t), {}, key, value, left, right, parent, loc, target,
                  mem.key, mem.value, mem.left, mem.right, mem.parent, mem.loc, mem.target);
    assert other.Elems() == e;
    if l in e {
      LocatorNode(other.tree, key, value, loc, target, l);
      assert false;
    }
  }
}
