/** The quad tree: a fixed pool of nodes, filled by in-place insertion, against the batch construction it refines. */
module QuadTrees {
  import opened Geometry

  const MAX_COL_NBR: nat := 16
  const MAX_DEPTH: nat := 5

  datatype ColliderRef = ColliderRef(index: nat, genIndex: nat)

  datatype ColliderRefAabb = ColliderRefAabb(aabb: Rectangle, colRef: ColliderRef)

  /** `children` holds the pool indices of the four children; it is empty in place of null pointers. */
  datatype QuadNode = QuadNode(cols: seq<ColliderRefAabb>, bounds: Rectangle, children: seq<nat>, depth: nat)

  predicate Blank(node: QuadNode) { node.cols == [] && node.children == [] }

  // ------------------------------------------------------------ the batch construction

  /** The `k`-th quadrant, in the order of the node's children. */
  function Quadrant(b: Rectangle, k: nat): Rectangle
    requires k < 4
  {
    var half := b.maxBound.Sub(b.minBound).Scale(0.5);
    var min := b.minBound;
    if k == 0 then Rectangle(min, min.Add(half))
    else if k == 1 then Rectangle(Vec2(min.x, min.y + half.y), Vec2(min.x + half.x, min.y + 2.0 * half.y))
    else if k == 2 then Rectangle(Vec2(min.x + half.x, min.y), Vec2(min.x + 2.0 * half.x, min.y + half.y))
    else Rectangle(Vec2(min.x + half.x, min.y + half.y), b.maxBound)
  }

  /** The entries whose box meets `b`, in order. */
  function Hits(s: seq<ColliderRefAabb>, b: Rectangle): (r: seq<ColliderRefAabb>)
    ensures |r| <= |s|
  {
    if s == [] then []
    else
      var rest := Hits(s[..|s| - 1], b);
      if RectanglesIntersect(s[|s| - 1].aabb, b) then rest + [s[|s| - 1]] else rest
  }

  lemma HitsAppend(s: seq<ColliderRefAabb>, x: ColliderRefAabb, b: Rectangle)
    ensures Hits(s + [x], b) == if RectanglesIntersect(x.aabb, b) then Hits(s, b) + [x] else Hits(s, b)
  {
    assert (s + [x])[..|s|] == s;
  }

  /** A node is divided exactly when more than 16 entries reached it above the last level. */
  predicate Splits(depth: nat, s: seq<ColliderRefAabb>) {
    |s| > MAX_COL_NBR && depth < MAX_DEPTH
  }

  /** The number of nodes of the batch tree for `s`. */
  ghost function NodeCount(b: Rectangle, depth: nat, s: seq<ColliderRefAabb>): nat
    decreases MAX_DEPTH - depth, 5
  {
    if Splits(depth, s) then 1 + ChildCount(b, depth, s, 4) else 1
  }

  /** The number of nodes of the first `k` child trees. */
  ghost function ChildCount(b: Rectangle, depth: nat, s: seq<ColliderRefAabb>, k: nat): nat
    requires depth < MAX_DEPTH && k <= 4
    decreases MAX_DEPTH - depth, k
  {
    if k == 0 then 0
    else ChildCount(b, depth, s, k - 1) + NodeCount(Quadrant(b, k - 1), depth + 1, Hits(s, Quadrant(b, k - 1)))
  }

  /** The number of nodes of a tree divided everywhere. */
  function FullCount(depth: nat): nat
    decreases MAX_DEPTH - depth
  {
    if depth < MAX_DEPTH then 1 + 4 * FullCount(depth + 1) else 1
  }

  lemma {:induction false} NodeCountBound(b: Rectangle, depth: nat, s: seq<ColliderRefAabb>)
    ensures NodeCount(b, depth, s) <= FullCount(depth)
    decreases MAX_DEPTH - depth, 5
  {
    hide Quadrant, Hits, NodeCount, ChildCount, FullCount;
    if depth < MAX_DEPTH {
      CountStep(b, depth, s, 0);
      ChildCountBound(b, depth, s, 0, 4);
    } else {
      BottomCount(b, depth, s);
    }
  }

  lemma BottomCount(b: Rectangle, depth: nat, s: seq<ColliderRefAabb>)
    requires depth >= MAX_DEPTH
    ensures NodeCount(b, depth, s) == FullCount(depth) == 1
  {}

  lemma OneMore(n: nat, full: nat)
    ensures (n + 1) * full == n * full + full
  {}

  /** The first `m` child trees have at most `m - k` full trees more than the first `k`. */
  lemma {:induction false} ChildCountBound(b: Rectangle, depth: nat, s: seq<ColliderRefAabb>, k: nat, m: nat)
    requires depth < MAX_DEPTH && k <= m <= 4
    ensures ChildCount(b, depth, s, m) <= ChildCount(b, depth, s, k) + (m - k) * FullCount(depth + 1)
    decreases MAX_DEPTH - depth, m
  {
    hide Quadrant, Hits, FullCount, NodeCount, ChildCount;
    if k < m {
      var full, last := FullCount(depth + 1), NodeCount(Quadrant(b, m - 1), depth + 1, Hits(s, Quadrant(b, m - 1)));
      ChildCountBound(b, depth, s, k, m - 1);
      NodeCountBound(Quadrant(b, m - 1), depth + 1, Hits(s, Quadrant(b, m - 1)));
      CountStep(b, depth, s, m - 1);
      OneMore(m - 1 - k, full);
      assert ChildCount(b, depth, s, m) == ChildCount(b, depth, s, m - 1) + last && last <= full;
    }
  }

  // --------------------------------------------------------- the pool that refines it

  /** The subtree of pool node `i` is the batch tree for `s`: a divided node holds nothing itself,
      its children have the quadrants as bounds and are the batch trees of the entries that meet them.
      `path[j]` lists the child numbers that lead from the root to node `j`. */
  ghost predicate Holds(pool: seq<QuadNode>, path: seq<seq<nat>>, i: nat, s: seq<ColliderRefAabb>)
    requires |path| <= |pool|
    decreases if i < |path| then MAX_DEPTH - |path[i]| else 0
  {
    && i < |path|
    && |path[i]| == pool[i].depth <= MAX_DEPTH
    && if Splits(pool[i].depth, s) then
         pool[i].cols == [] && HasChildren(pool, path, i) &&
         forall k :: 0 <= k < 4 ==>
           Holds(pool, path, pool[i].children[k], Hits(s, Quadrant(pool[i].bounds, k)))
       else
         pool[i].cols == s && pool[i].children == []
  }

  /** The four children are allocated, one level deeper, over the quadrants. */
  ghost predicate HasChildren(pool: seq<QuadNode>, path: seq<seq<nat>>, i: nat)
    requires i < |path| <= |pool|
  {
    && |pool[i].children| == 4
    && forall k :: 0 <= k < 4 ==>
         && pool[i].children[k] < |path|
         && path[pool[i].children[k]] == path[i] + [k]
         && pool[pool[i].children[k]].depth == pool[i].depth + 1
         && pool[pool[i].children[k]].bounds == Quadrant(pool[i].bounds, k)
  }

  /** `Holds` depends only on the nodes below `i`. */
  lemma {:induction false} HoldsFrame(pool: seq<QuadNode>, path: seq<seq<nat>>, pool': seq<QuadNode>,
      path': seq<seq<nat>>,
                   i: nat, s: seq<ColliderRefAabb>)
    requires |path| <= |pool| && |path'| <= |pool'| && |path| <= |path'| && path == path'[..|path|]
    requires Holds(pool, path, i, s)
    requires forall j :: 0 <= j < |path| && path[i] <= path[j] ==> pool'[j] == pool[j]
    ensures Holds(pool', path', i, s)
    decreases MAX_DEPTH - |path[i]|
  {
    assert path'[i] == path[i];
    if Splits(pool[i].depth, s) {
      forall k | 0 <= k < 4
        ensures Holds(pool', path', pool[i].children[k], Hits(s, Quadrant(pool[i].bounds, k)))
      {
        HoldsFrame(pool, path, pool', path', pool[i].children[k], Hits(s, Quadrant(pool[i].bounds, k)));
      }
    }
  }

  /** What an insertion below `i` may change: nodes below `i`, and new nodes below `i`. */
  ghost predicate Grows(pool: seq<QuadNode>, path: seq<seq<nat>>, pool': seq<QuadNode>, path': seq<seq<nat>>, i: nat)
    requires i < |path| <= |pool|
  {
    && |pool'| == |pool| && |path| <= |path'| <= |pool| && path == path'[..|path|]
    && (forall j :: 0 <= j < |path| && !(path[i] <= path[j]) ==> pool'[j] == pool[j])
    && (forall j :: |path| <= j < |path'| ==> path[i] <= path'[j])
    && (forall j :: 0 <= j < |path| ==> pool'[j].bounds == pool[j].bounds && pool'[j].depth == pool[j].depth)
    && (forall j :: 0 <= j < |path| && pool[j].children != [] ==> pool'[j].children == pool[j].children)
  }

  lemma GrowsChain(pool: seq<QuadNode>, path: seq<seq<nat>>, pool': seq<QuadNode>, path': seq<seq<nat>>,
                   pool'': seq<QuadNode>, path'': seq<seq<nat>>, i: nat, c: nat)
    requires i < |path| <= |pool| && c < |path'| <= |pool'|
    requires Grows(pool, path, pool', path', i)
    requires Grows(pool', path', pool'', path'', c) && path[i] <= path'[c]
    ensures Grows(pool, path, pool'', path'', i)
  {
    forall j | 0 <= j < |path|
      ensures path''[j] == path[j]
      ensures !(path[i] <= path[j]) ==> pool''[j] == pool[j]
    {
      assert path'[j] == path[j];
    }
    forall j | |path| <= j < |path''| ensures path[i] <= path''[j] {
      if j < |path'| {
        assert path''[j] == path'[j];
      }
    }
  }

  /** The entries below child `k` are not below another child. */
  lemma SiblingsApart(p: seq<nat>, j: nat, k: nat, q: seq<nat>)
    requires p + [j] <= q && p + [k] <= q
    ensures j == k
  {
    assert q[|p|] == (p + [j])[|p|] == (p + [k])[|p|];
  }

  /** Growing below child `k` of `i` leaves the trees of the other children as they are. */
  lemma SiblingHolds(pool: seq<QuadNode>, path: seq<seq<nat>>, pool': seq<QuadNode>, path': seq<seq<nat>>,
                     i: nat, k: nat, j: nat, s: seq<ColliderRefAabb>)
    requires i < |path| <= |pool| && HasChildren(pool, path, i) && k < 4 && j < 4 && j != k
    requires Grows(pool, path, pool', path', pool[i].children[k])
    requires Holds(pool, path, pool[i].children[j], s)
    ensures Holds(pool', path', pool[i].children[j], s)
  {
    var c := pool[i].children[j];
    forall q | 0 <= q < |path| && path[c] <= path[q] ensures pool'[q] == pool[q] {
      if path[pool[i].children[k]] <= path[q] {
        SiblingsApart(path[i], j, k, path[q]);
      }
    }
    HoldsFrame(pool, path, pool', path', c, s);
  }

  ghost predicate HangsBelow(pool: seq<QuadNode>, path: seq<seq<nat>>, parent: seq<nat>, j: nat)
    requires j < |path| == |parent| <= |pool|
  {
    && 0 < |path[j]| && parent[j] < j
    && path[parent[j]] == path[j][..|path[j]| - 1]
    && pool[parent[j]].children != []
  }

  /** The allocated nodes form one tree: node 0 is its root, every other node hangs below an earlier
      one, no two nodes share a position, and the rest of the pool is blank. */
  ghost predicate OneTree(pool: seq<QuadNode>, path: seq<seq<nat>>, parent: seq<nat>) {
    && 0 < |path| == |parent| <= |pool|
    && path[0] == [] && pool[0].depth == 0
    && (forall j :: 0 < j < |path| ==> HangsBelow(pool, path, parent, j))
    && (forall j :: 0 <= j < |path| ==> |path[j]| == pool[j].depth)
    && (forall j :: 0 <= j < |path| && pool[j].children != [] ==> HasChildren(pool, path, j))
    && (forall i, j :: 0 <= i < |path| && 0 <= j < |path| && path[i] == path[j] ==> i == j)
    && (forall j :: |path| <= j < |pool| ==> Blank(pool[j]))
  }

  /** A pool slot is the child of at most one node, and in at most one place. */
  lemma OneParent(pool: seq<QuadNode>, path: seq<seq<nat>>, parent: seq<nat>, i: nat, k: nat, j: nat, m: nat)
    requires OneTree(pool, path, parent) && i < |path| && j < |path|
    requires k < |pool[i].children| && m < |pool[j].children| && pool[i].children[k] == pool[j].children[m]
    ensures i == j && k == m
  {
    assert path[i] + [k] == path[j] + [m];
    assert path[i] == (path[i] + [k])[..|path[i]|] == path[j];
    SiblingsApart(path[i], k, m, path[i] + [k]);
  }

  class QuadTree {
    var nodes: seq<QuadNode>
    var nodeIndex: nat
    ghost var path: seq<seq<nat>>
    ghost var parent: seq<nat>

    ghost predicate Valid()
      reads this
    {
      |nodes| == FullCount(0) && nodeIndex == |path| && OneTree(nodes, path, parent)
    }

    /** The tree below the root is the batch tree of `s`, and exactly its nodes are in use. */
    ghost predicate Built(b: Rectangle, s: seq<ColliderRefAabb>)
      reads this
    {
      Valid() && nodes[0].bounds == b && Holds(nodes, path, 0, s) && nodeIndex == NodeCount(b, 0, s)
    }

    /** Node `i` is in use and its subtree is the batch tree of `s`. */
    ghost predicate Subtree(i: nat, s: seq<ColliderRefAabb>): (r: bool)
      reads this
      ensures r ==> i < |nodes|
    {
      Valid() && i < nodeIndex && Holds(nodes, path, i, s)
    }

    lemma RootNode(b: Rectangle, s: seq<ColliderRefAabb>)
      requires Built(b, s)
      ensures Subtree(0, s) && nodes[0].bounds == b && nodes[0].depth == 0
    {}

    lemma LeafNode(i: nat, s: seq<ColliderRefAabb>)
      requires Subtree(i, s) && nodes[i].children == []
      ensures nodes[i].cols == s && !Splits(nodes[i].depth, s)
    {
      hide Quadrant, Hits, OneTree;
    }

    lemma InnerNode(i: nat, s: seq<ColliderRefAabb>)
      requires Subtree(i, s) && nodes[i].children != []
      ensures Splits(nodes[i].depth, s) && |nodes[i].children| == 4
    {
      hide Quadrant, Hits, OneTree;
    }

    /** Exactly the nodes that received more entries than a leaf holds, above the last level, have children. */
    lemma DividedIff(i: nat, s: seq<ColliderRefAabb>)
      requires Subtree(i, s)
      ensures nodes[i].children != [] <==> |s| > 16 && nodes[i].depth < 5
      ensures nodes[i].cols == if |s| > 16 && nodes[i].depth < 5 then [] else s
    {
      hide Quadrant, Hits, OneTree;
    }

    lemma ChildNode(i: nat, s: seq<ColliderRefAabb>, k: nat)
      requires Subtree(i, s) && nodes[i].children != [] && k < 4
      ensures |nodes[i].children| == 4
      ensures var c, q := nodes[i].children[k], Quadrant(nodes[i].bounds, k);
        Subtree(c, Hits(s, q)) && nodes[c].bounds == q && nodes[c].depth == nodes[i].depth + 1
    {
      hide Quadrant, Hits, OneTree;
      InnerNode(i, s);
    }

    constructor ()
      ensures Built(Rectangle(ZERO, ZERO), [])
    {
      var size := PoolSize();
      nodes := seq(size, j => QuadNode([], Rectangle(ZERO, ZERO), [], 0));
      nodeIndex := 1;
      path, parent := [[]], [0];
    }

    /** Empties every node of the pool; the root gets new bounds, the depths are left as they are. */
    method SetUpRoot(bounds: Rectangle)
      requires Valid()
      modifies this
      ensures Built(bounds, []) && nodeIndex == 1
    {
      hide OneTree;
      TreeSizes(nodes, path, parent);
      RootDepth(nodes, path, parent);
      for k := 0 to |nodes|
        invariant |nodes| == old(|nodes|) > 0 && nodes[0].depth == 0
        invariant forall j :: 0 <= j < k ==> Blank(nodes[j])
      {
        nodes := nodes[k := nodes[k].(cols := [], children := [])];
      }
      nodes := nodes[0 := nodes[0].(bounds := bounds)];
      nodeIndex := 1;
      path, parent := [[]], [0];
      LoneRoot(nodes);
    }

    /** Inserting at the root never runs out of nodes. */
    method InsertAtRoot(x: ColliderRefAabb, ghost b: Rectangle, ghost s: seq<ColliderRefAabb>)
      requires Built(b, s)
      modifies this
      ensures Built(b, s + [x]) && nodeIndex <= |nodes|
    {
      RootDepth(nodes, path, parent);
      ghost var before, beforePath := nodes, path;
      Insert(0, x, s);
      assert nodes[0].bounds == before[0].bounds;
    }

    /** Carves four consecutive blank nodes out of the pool as the children of `i`. */
    method SubdivideNode(i: nat)
      requires Valid() && i < nodeIndex && nodeIndex + 4 <= |nodes|
      requires nodes[i].children == [] && nodes[i].depth < MAX_DEPTH
      modifies this
      ensures Valid() && nodeIndex == old(nodeIndex) + 4
      ensures Grows(old(nodes), old(path), nodes, path, i)
      ensures nodes[i] == old(nodes[i]).(children := nodes[i].children) && HasChildren(nodes, path, i)
      ensures forall k :: 0 <= k < 4 ==> Blank(nodes[nodes[i].children[k]])
    {
      hide Quadrant, OneTree, HasChildren, Divided, Grows;
      assert 0 < |path| == |parent| <= |nodes| by { TreeSizes(nodes, path, parent); }
      var n, pool := nodeIndex, nodes;
      var depth, b := pool[i].depth + 1, pool[i].bounds;
      pool := pool[i := pool[i].(children := [n, n + 1, n + 2, n + 3])];
      pool := pool[n := pool[n].(bounds := Quadrant(b, 0), depth := depth)];
      pool := pool[n + 1 := pool[n + 1].(bounds := Quadrant(b, 1), depth := depth)];
      pool := pool[n + 2 := pool[n + 2].(bounds := Quadrant(b, 2), depth := depth)];
      pool := pool[n + 3 := pool[n + 3].(bounds := Quadrant(b, 3), depth := depth)];
      ghost var path' := path + [path[i] + [0], path[i] + [1], path[i] + [2], path[i] + [3]];
      UpdatesDivide(nodes, path, i, pool, path');
      DividedTree(nodes, path, parent, i, pool, path', parent + [i, i, i, i]);
      nodes, nodeIndex, path, parent := pool, n + 4, path', parent + [i, i, i, i];
    }

    /** Inserting `x` turns the batch tree of `s` below node `i` into the batch tree of `s + [x]`,
        and uses as many nodes of the pool as that tree is larger. */
    method Insert(i: nat, x: ColliderRefAabb, ghost s: seq<ColliderRefAabb>)
      requires Valid() && i < nodeIndex && Holds(nodes, path, i, s)
      requires nodeIndex + FullCount(nodes[i].depth) <= |nodes| + NodeCount(nodes[i].bounds, nodes[i].depth, s)
      modifies this
      ensures Valid() && Grows(old(nodes), old(path), nodes, path, i)
      ensures Holds(nodes, path, i, s + [x])
      ensures nodeIndex + NodeCount(nodes[i].bounds, nodes[i].depth, s) ==
              old(nodeIndex) + NodeCount(nodes[i].bounds, nodes[i].depth, s + [x])
      decreases MAX_DEPTH - nodes[i].depth, 1
    {
      if nodes[i].children != [] {
        InsertIntoChildren(i, x, s);
      } else if |nodes[i].cols| >= MAX_COL_NBR && nodes[i].depth < MAX_DEPTH {
        SplitAndInsert(i, x, s);
      } else {
        nodes := nodes[i := nodes[i].(cols := nodes[i].cols + [x])];
        SameTree(old(nodes), nodes, path, parent, i);
      }
    }

    method InsertIntoChildren(i: nat, x: ColliderRefAabb, ghost s: seq<ColliderRefAabb>)
      requires Valid() && i < nodeIndex && Holds(nodes, path, i, s) && Splits(nodes[i].depth, s)
      requires nodeIndex + FullCount(nodes[i].depth) <= |nodes| + NodeCount(nodes[i].bounds, nodes[i].depth, s)
      modifies this
      ensures Valid() && Grows(old(nodes), old(path), nodes, path, i)
      ensures Holds(nodes, path, i, s + [x])
      ensures nodeIndex + NodeCount(nodes[i].bounds, nodes[i].depth, s) ==
              old(nodeIndex) + NodeCount(nodes[i].bounds, nodes[i].depth, s + [x])
      decreases MAX_DEPTH - nodes[i].depth, 0
    {
      hide OneTree, HasChildren, Grows, Quadrant, FullCount, NodeCount, ChildCount, Hits, Holds, ChildrenHold,
        RectanglesIntersect;
      TreeSizes(nodes, path, parent);
      ghost var b, depth := nodes[i].bounds, nodes[i].depth;
      StartInsertion(nodes, path, parent, i, s, s + [x]);
      for k := 0 to 4
        invariant Valid() && Grows(old(nodes), old(path), nodes, path, i) && nodes[i] == old(nodes[i])
        invariant i < |path| <= |nodes| && HasChildren(nodes, path, i)
        invariant nodeIndex + ChildCount(b, depth, s, k) == old(nodeIndex) + ChildCount(b, depth, s + [x], k)
        invariant ChildrenHold(nodes, path, i, s, s + [x], k)
      {
        ghost var before, beforePath := nodes, path;
        ChildFacts(nodes, path, i, s, s + [x], k);
        var c := nodes[i].children[k];
        HitsAppend(s, x, Quadrant(b, k));
        if RectanglesIntersect(x.aabb, nodes[c].bounds) {
          ChildRoom(b, depth, s, s + [x], k, old(nodeIndex), nodeIndex, |nodes|);
          Insert(c, x, Hits(s, Quadrant(b, k)));
          ChildInserted(old(nodes), old(path), before, beforePath, nodes, path, i, k);
          TreeChildren(nodes, path, parent, i);
        } else {
          GrowsNot(nodes, path, c);
        }
        CountStep(b, depth, s, k);
        CountStep(b, depth, s + [x], k);
        ChildrenAdvance(before, beforePath, nodes, path, i, s, s + [x], k);
      }
      CountStep(b, depth, s, 3);
      CountStep(b, depth, s + [x], 3);
      PathDepth(nodes, path, parent, i);
      EndInsertion(nodes, path, i, s, s + [x]);
    }

    /** Divides the full leaf `i` and hands its entries and `x` down to the children they meet. */
    method SplitAndInsert(i: nat, x: ColliderRefAabb, ghost s: seq<ColliderRefAabb>)
      requires Valid() && i < nodeIndex && Holds(nodes, path, i, s)
      requires nodes[i].children == [] && |nodes[i].cols| >= MAX_COL_NBR && nodes[i].depth < MAX_DEPTH
      requires nodeIndex + FullCount(nodes[i].depth) <= |nodes| + NodeCount(nodes[i].bounds, nodes[i].depth, s)
      modifies this
      ensures Valid() && Grows(old(nodes), old(path), nodes, path, i)
      ensures Holds(nodes, path, i, s + [x])
      ensures nodeIndex + NodeCount(nodes[i].bounds, nodes[i].depth, s) ==
              old(nodeIndex) + NodeCount(nodes[i].bounds, nodes[i].depth, s + [x])
      decreases MAX_DEPTH - nodes[i].depth, 0
    {
      hide OneTree, HasChildren, Grows, Quadrant, FullCount, NodeCount, ChildCount, Hits, Holds, ChildrenHold;
      TreeSizes(nodes, path, parent);
      ghost var b, depth, all := nodes[i].bounds, nodes[i].depth, s + [x];
      LeafOf(nodes, path, i, s);
      SplitRoom(b, depth, s, x, nodeIndex, |nodes|);
      SubdivideNode(i);
      ghost var divided := nodes;
      nodes := nodes[i := nodes[i].(cols := nodes[i].cols + [x])];
      BlankChildren(old(nodes), old(path), divided, nodes, path, parent, i, all);
      for k := 0 to 4
        invariant Valid() && Grows(old(nodes), old(path), nodes, path, i)
        invariant i < |path| <= |nodes| && HasChildren(nodes, path, i)
        invariant nodes[i].cols == all && nodes[i].bounds == b && nodes[i].depth == depth
        invariant nodeIndex == old(nodeIndex) + ChildCount(b, depth, all, k) + 4 - k
        invariant ChildrenHold(nodes, path, i, [], all, k)
      {
        ghost var before, beforePath := nodes, path;
        ChildFacts(nodes, path, i, [], all, k);
        CountStep(b, depth, all, k);
        BlankRoom(b, depth, all, k, old(nodeIndex), |nodes|);
        InsertEach(nodes[i].children[k], nodes[i].cols);
        ChildInserted(old(nodes), old(path), before, beforePath, nodes, path, i, k);
        TreeChildren(nodes, path, parent, i);
        ChildrenAdvance(before, beforePath, nodes, path, i, [], all, k);
      }
      ghost var filled := nodes;
      nodes := nodes[i := nodes[i].(cols := [])];
      Emptied(old(nodes), old(path), filled, nodes, path, parent, i, all);
      CountStep(b, depth, s, 0);
      CountStep(b, depth, all, 0);
    }

    /** Inserts into the blank node `c` the entries of `cols` that meet it. */
    method InsertEach(c: nat, cols: seq<ColliderRefAabb>)
      requires Valid() && c < nodeIndex && Holds(nodes, path, c, [])
      requires nodeIndex + FullCount(nodes[c].depth) <= |nodes| + 1
      modifies this
      ensures Valid() && Grows(old(nodes), old(path), nodes, path, c)
      ensures Holds(nodes, path, c, Hits(cols, nodes[c].bounds))
      ensures nodeIndex + 1 == old(nodeIndex) + NodeCount(nodes[c].bounds, nodes[c].depth, Hits(cols, nodes[c].bounds))
      decreases MAX_DEPTH - nodes[c].depth, 2
    {
      hide OneTree, HasChildren, Grows, Quadrant, FullCount, NodeCount, Hits, Holds, RectanglesIntersect;
      TreeSizes(nodes, path, parent);
      ghost var b, depth := nodes[c].bounds, nodes[c].depth;
      GrowsNot(nodes, path, c);
      NoHits(b, depth);
      assert cols[..0] == [];
      for m := 0 to |cols|
        invariant Valid() && c < |path| <= |nodes| && Grows(old(nodes), old(path), nodes, path, c)
        invariant nodes[c].bounds == b && nodes[c].depth == depth
        invariant Holds(nodes, path, c, Hits(cols[..m], b))
        invariant nodeIndex + 1 == old(nodeIndex) + NodeCount(b, depth, Hits(cols[..m], b))
      {
        var col := cols[m];
        assert cols[..m + 1] == cols[..m] + [col];
        HitsAppend(cols[..m], col, b);
        if RectanglesIntersect(col.aabb, nodes[c].bounds) {
          ghost var before, beforePath := nodes, path;
          SizesOf(old(nodes), old(path), nodes, path, c);
          Insert(c, col, Hits(cols[..m], b));
          TreeSizes(nodes, path, parent);
          GrowsAgain(old(nodes), old(path), before, beforePath, nodes, path, c);
        }
      }
      assert cols[..|cols|] == cols;
    }
  }

  lemma NoHits(b: Rectangle, depth: nat)
    ensures Hits([], b) == [] && NodeCount(b, depth, []) == 1
  {}

  lemma LeafOf(pool: seq<QuadNode>, path: seq<seq<nat>>, i: nat, s: seq<ColliderRefAabb>)
    requires i < |path| <= |pool| && Holds(pool, path, i, s) && pool[i].children == []
    ensures pool[i].cols == s && !Splits(pool[i].depth, s)
  {}

  lemma SizesOf(pool: seq<QuadNode>, path: seq<seq<nat>>, pool': seq<QuadNode>, path': seq<seq<nat>>, c: nat)
    requires c < |path| <= |pool| && Grows(pool, path, pool', path', c)
    ensures |pool'| == |pool| && c < |path'| <= |pool'|
  {}

  lemma GrowsAgain(pool: seq<QuadNode>, path: seq<seq<nat>>, pool': seq<QuadNode>, path': seq<seq<nat>>,
                   pool'': seq<QuadNode>, path'': seq<seq<nat>>, c: nat)
    requires c < |path| <= |pool| && c < |path'| <= |pool'|
    requires Grows(pool, path, pool', path', c) && Grows(pool', path', pool'', path'', c)
    ensures Grows(pool, path, pool'', path'', c)
    ensures pool''[c].bounds == pool'[c].bounds && pool''[c].depth == pool'[c].depth
  {
    assert path'[c] == path[c];
    GrowsChain(pool, path, pool', path', pool'', path'', c, c);
  }

  lemma SplitRoom(b: Rectangle, depth: nat, s: seq<ColliderRefAabb>, x: ColliderRefAabb, start: nat, cap: nat)
    requires depth < MAX_DEPTH && |s| >= MAX_COL_NBR && !Splits(depth, s)
    requires start + FullCount(depth) <= cap + NodeCount(b, depth, s)
    ensures start + 4 <= cap && start + 4 * FullCount(depth + 1) <= cap
    ensures Splits(depth, s + [x])
  {
    CountStep(b, depth, s, 0);
    assert FullCount(depth + 1) >= 1;
  }

  lemma BlankRoom(b: Rectangle, depth: nat, all: seq<ColliderRefAabb>, k: nat, start: nat, cap: nat)
    requires depth < MAX_DEPTH && k < 4 && start + 4 * FullCount(depth + 1) <= cap
    ensures start + ChildCount(b, depth, all, k) + 4 - k + FullCount(depth + 1) <= cap + 1
  {
    var full := FullCount(depth + 1);
    CountStep(b, depth, all, 0);
    hide Quadrant, Hits, ChildCount, FullCount;
    ChildCountBound(b, depth, all, 0, k);
    assert 1 <= full by { FullPositive(depth + 1); }
    assert 3 - k <= (3 - k) * full;
    assert k * full + (3 - k) * full + full == 4 * full;
  }

  lemma FullPositive(depth: nat)
    ensures 1 <= FullCount(depth)
  {}

  lemma BlankChildren(pool0: seq<QuadNode>, path0: seq<seq<nat>>, pool: seq<QuadNode>, pool': seq<QuadNode>,
      path: seq<seq<nat>>,
                      parent: seq<nat>, i: nat, all: seq<ColliderRefAabb>)
    requires i < |path0| <= |pool0| && OneTree(pool, path, parent) && i < |path| && Grows(pool0, path0, pool, path, i)
    requires HasChildren(pool, path, i) && forall k :: 0 <= k < 4 ==> Blank(pool[pool[i].children[k]])
    requires |pool'| == |pool| && pool' == pool[i := pool[i].(cols := pool'[i].cols)] && pool[i].depth < MAX_DEPTH
    ensures OneTree(pool', path, parent) && Grows(pool0, path0, pool', path, i)
    ensures i < |path| <= |pool'| && HasChildren(pool', path, i) && ChildrenHold(pool', path, i, [], all, 0)
    ensures ChildCount(pool[i].bounds, pool[i].depth, all, 0) == 0
  {
    hide Quadrant, Hits;
    SameTree(pool, pool', path, parent, i);
    assert path[i] == path0[i];
    GrowsChain(pool0, path0, pool, path, pool', path, i, i);
    forall j | 0 <= j < 4
      ensures Holds(pool', path, pool'[i].children[j], Hits([], Quadrant(pool'[i].bounds, j)))
    {
      NoHits(Quadrant(pool'[i].bounds, j), 0);
      var c := pool[i].children[j];
      assert path[c] == path[i] + [j] && c != i;
      assert pool'[c] == pool[c] && Blank(pool[c]);
    }
  }

  lemma Emptied(pool0: seq<QuadNode>, path0: seq<seq<nat>>, pool: seq<QuadNode>, pool': seq<QuadNode>,
      path: seq<seq<nat>>,
                parent: seq<nat>, i: nat, all: seq<ColliderRefAabb>)
    requires i < |path0| <= |pool0| && OneTree(pool, path, parent) && i < |path| && Grows(pool0, path0, pool, path, i)
    requires HasChildren(pool, path, i) && ChildrenHold(pool, path, i, [], all, 4)
    requires |pool'| == |pool| && pool' == pool[i := pool[i].(cols := [])] && Splits(pool[i].depth, all)
    ensures OneTree(pool', path, parent) && Grows(pool0, path0, pool', path, i) && Holds(pool', path, i, all)
  {
    hide Quadrant, Hits;
    SameTree(pool, pool', path, parent, i);
    assert path[i] == path0[i];
    GrowsChain(pool0, path0, pool, path, pool', path, i, i);
    forall j | 0 <= j < 4 ensures Holds(pool', path, pool[i].children[j], Hits(all, Quadrant(pool[i].bounds, j))) {
      var c := pool[i].children[j];
      assert j < 4 && path[c] == path[i] + [j];
      assert Holds(pool, path, c, Hits(all, Quadrant(pool[i].bounds, j)));
      HoldsFrame(pool, path, pool', path, c, Hits(all, Quadrant(pool[i].bounds, j)));
    }
  }

  /** The entries held by an allocated node do not matter for the shape of the tree. */
  lemma SameTree(pool: seq<QuadNode>, pool': seq<QuadNode>, path: seq<seq<nat>>, parent: seq<nat>, i: nat)
    requires OneTree(pool, path, parent) && i < |path|
    requires |pool'| == |pool| && pool' == pool[i := pool[i].(cols := pool'[i].cols)]
    ensures OneTree(pool', path, parent) && Grows(pool, path, pool', path, i)
  {
    hide Quadrant;
    forall j | 0 < j < |path| ensures HangsBelow(pool', path, parent, j) {
      assert HangsBelow(pool, path, parent, j);
    }
    forall j | 0 <= j < |path| && pool'[j].children != [] ensures HasChildren(pool', path, j) {
      assert HasChildren(pool, path, j);
    }
  }

  /** Below `i` the children before `k` are the batch trees for `s'`, the others those for `s`. */
  ghost predicate ChildrenHold(pool: seq<QuadNode>, path: seq<seq<nat>>, i: nat,
                               s: seq<ColliderRefAabb>, s': seq<ColliderRefAabb>, k: nat)
    requires i < |path| <= |pool| && HasChildren(pool, path, i)
  {
    forall j :: 0 <= j < 4 ==>
      Holds(pool, path, pool[i].children[j], Hits(if j < k then s' else s, Quadrant(pool[i].bounds, j)))
  }

  lemma StartInsertion(pool: seq<QuadNode>, path: seq<seq<nat>>, parent: seq<nat>, i: nat,
                       s: seq<ColliderRefAabb>, s': seq<ColliderRefAabb>)
    requires OneTree(pool, path, parent) && i < |path| && Holds(pool, path, i, s) && Splits(pool[i].depth, s)
    ensures i < |path| <= |pool| && HasChildren(pool, path, i) && Grows(pool, path, pool, path, i)
    ensures ChildrenHold(pool, path, i, s, s', 0) && pool[i].cols == []
    ensures ChildCount(pool[i].bounds, pool[i].depth, s, 0) == ChildCount(pool[i].bounds, pool[i].depth, s', 0) == 0
  {
    hide Quadrant, Hits;
  }

  lemma EndInsertion(pool: seq<QuadNode>, path: seq<seq<nat>>, i: nat, s: seq<ColliderRefAabb>,
      s': seq<ColliderRefAabb>)
    requires i < |path| <= |pool| && HasChildren(pool, path, i) && ChildrenHold(pool, path, i, s, s', 4)
    requires |path[i]| == pool[i].depth && pool[i].cols == [] && Splits(pool[i].depth, s')
    ensures Holds(pool, path, i, s')
  {
    hide Quadrant, Hits;
    forall k | 0 <= k < 4 ensures Holds(pool, path, pool[i].children[k], Hits(s', Quadrant(pool[i].bounds, k))) {
      assert k < 4;
    }
  }

  lemma ChildFacts(pool: seq<QuadNode>, path: seq<seq<nat>>, i: nat, s: seq<ColliderRefAabb>,
      s': seq<ColliderRefAabb>, k: nat)
    requires i < |path| <= |pool| && HasChildren(pool, path, i) && k < 4
    requires ChildrenHold(pool, path, i, s, s', k)
    ensures |pool[i].children| == 4 && pool[i].children[k] < |path|
    ensures pool[pool[i].children[k]].bounds == Quadrant(pool[i].bounds, k)
    ensures pool[pool[i].children[k]].depth == pool[i].depth + 1
    ensures Holds(pool, path, pool[i].children[k], Hits(s, Quadrant(pool[i].bounds, k)))
  {
    hide Quadrant, Hits;
    assert !(k < k);
  }

  lemma GrowsNot(pool: seq<QuadNode>, path: seq<seq<nat>>, c: nat)
    requires c < |path| <= |pool|
    ensures Grows(pool, path, pool, path, c)
  {}

  lemma ChildrenAdvance(pool: seq<QuadNode>, path: seq<seq<nat>>, pool': seq<QuadNode>, path': seq<seq<nat>>, i: nat,
                        s: seq<ColliderRefAabb>, s': seq<ColliderRefAabb>, k: nat)
    requires i < |path| <= |pool| && i < |path'| <= |pool'| && HasChildren(pool, path, i) && k < 4
    requires ChildrenHold(pool, path, i, s, s', k)
    requires Grows(pool, path, pool', path', pool[i].children[k]) && HasChildren(pool', path', i) && pool'[i] == pool[i]
    requires Holds(pool', path', pool[i].children[k], Hits(s', Quadrant(pool[i].bounds, k)))
    ensures ChildrenHold(pool', path', i, s, s', k + 1)
  {
    hide Quadrant, Hits, Grows;
    forall j | 0 <= j < 4
      ensures Holds(pool', path', pool[i].children[j], Hits(if j < k + 1 then s' else s, Quadrant(pool[i].bounds, j)))
    {
      if j != k {
        SiblingHolds(pool, path, pool', path', i, k, j, Hits(if j < k then s' else s, Quadrant(pool[i].bounds, j)));
      }
    }
  }

  lemma CountStep(b: Rectangle, depth: nat, s: seq<ColliderRefAabb>, k: nat)
    requires k < 4 && depth < MAX_DEPTH
    ensures NodeCount(b, depth, s) == if Splits(depth, s) then 1 + ChildCount(b, depth, s, 4) else 1
    ensures ChildCount(b, depth, s, 0) == 0
    ensures ChildCount(b, depth, s, k + 1) ==
            ChildCount(b, depth, s, k) + NodeCount(Quadrant(b, k), depth + 1, Hits(s, Quadrant(b, k)))
    ensures FullCount(depth) == 1 + 4 * FullCount(depth + 1)
  {
    hide Quadrant, Hits;
  }

  /** The room left for the tree of a child, while the children before it have already grown. */
  lemma ChildRoom(b: Rectangle, depth: nat, s: seq<ColliderRefAabb>, s': seq<ColliderRefAabb>, k: nat,
                  start: nat, now: nat, cap: nat)
    requires k < 4 && Splits(depth, s)
    requires start + FullCount(depth) <= cap + NodeCount(b, depth, s)
    requires now + ChildCount(b, depth, s, k) == start + ChildCount(b, depth, s', k)
    ensures now + FullCount(depth + 1) <=
            cap + NodeCount(Quadrant(b, k), depth + 1, Hits(s, Quadrant(b, k)))
  {
    hide Quadrant, Hits, NodeCount, ChildCount, FullCount;
    var full := FullCount(depth + 1);
    CountStep(b, depth, s, k);
    CountStep(b, depth, s', k);
    ChildCountBound(b, depth, s', 0, k);
    ChildCountBound(b, depth, s, k + 1, 4);
    assert k * full + (4 - (k + 1)) * full == 3 * full;
  }

  lemma ChildInserted(pool0: seq<QuadNode>, path0: seq<seq<nat>>, pool: seq<QuadNode>, path: seq<seq<nat>>,
                      pool': seq<QuadNode>, path': seq<seq<nat>>, i: nat, k: nat)
    requires i < |path0| <= |pool0| && |path| <= |pool| && k < 4
    requires Grows(pool0, path0, pool, path, i) && HasChildren(pool, path, i)
    requires Grows(pool, path, pool', path', pool[i].children[k])
    ensures Grows(pool0, path0, pool', path', i) && pool'[i] == pool[i] && i < |path'|
    ensures var c := pool[i].children[k]; pool'[c].bounds == pool[c].bounds && pool'[c].depth == pool[c].depth
  {
    assert path[i] == path0[i];
    GrowsChain(pool0, path0, pool, path, pool', path', i, pool[i].children[k]);
  }

  /** `pool'` is `pool` with four nodes carved out as children of `i`. */
  ghost predicate Divided(pool: seq<QuadNode>, path: seq<seq<nat>>, i: nat, pool': seq<QuadNode>,
      path': seq<seq<nat>>) {
    && i < |path| && |path| + 4 <= |pool| == |pool'| && |path'| == |path| + 4
    && pool'[i] == pool[i].(children := pool'[i].children) && |pool'[i].children| == 4
    && (forall k :: 0 <= k < 4 ==> pool'[i].children[k] == |path| + k)
    && (forall j :: |path| <= j < |path'| ==> path'[j] == path[i] + [j - |path|])
    && (forall j :: |path| <= j < |path'| ==> Fresh(pool[i], pool[j], pool'[j], j - |path|))
    && (forall j :: 0 <= j < |path| ==> path'[j] == path[j])
    && (forall j :: 0 <= j < |pool| && j != i && !(|path| <= j < |path| + 4) ==> pool'[j] == pool[j])
  }

  lemma TreeSizes(pool: seq<QuadNode>, path: seq<seq<nat>>, parent: seq<nat>)
    requires OneTree(pool, path, parent)
    ensures 0 < |path| == |parent| <= |pool|
  {}

  lemma RootDepth(pool: seq<QuadNode>, path: seq<seq<nat>>, parent: seq<nat>)
    requires OneTree(pool, path, parent)
    ensures pool[0].depth == 0
  {}

  lemma PathDepth(pool: seq<QuadNode>, path: seq<seq<nat>>, parent: seq<nat>, i: nat)
    requires OneTree(pool, path, parent) && i < |path|
    ensures |path[i]| == pool[i].depth
  {}

  lemma LoneRoot(pool: seq<QuadNode>)
    requires |pool| > 0 && pool[0].depth == 0 && forall j :: 0 <= j < |pool| ==> Blank(pool[j])
    ensures OneTree(pool, [[]], [0]) && Holds(pool, [[]], 0, []) && NodeCount(pool[0].bounds, 0, []) == 1
  {}

  function Power(x: nat, power: nat): nat {
    if power == 0 then 1 else Power(x, power - 1) * x
  }

  /** `Pow`; for a zero base the source answers 0 whatever the exponent. */
  method Pow(x: nat, power: nat) returns (result: nat)
    ensures result == if x == 0 then 0 else Power(x, power)
  {
    if x == 0 {
      return 0;
    }
    result := 1;
    for i := 0 to power
      invariant result == Power(x, i)
    {
      result := result * x;
    }
  }

  /** The pool has room for a tree divided everywhere: the sum of the powers of 4 up to the depth limit. */
  method PoolSize() returns (result: nat)
    ensures result == FullCount(0) == 1365
  {
    SixLevels();
    result := 0;
    for i := 0 to MAX_DEPTH + 1
      invariant i <= MAX_DEPTH ==> result + Power(4, i) * FullCount(i) == FullCount(0)
      invariant i == MAX_DEPTH + 1 ==> result == FullCount(0)
    {
      var p := Pow(4, i);
      if i < MAX_DEPTH {
        LevelStep(i);
      }
      result := result + p;
    }
  }

  lemma SixLevels()
    ensures FullCount(0) == 1 + 4 + 16 + 64 + 256 + 1024
  {
    assert FullCount(5) == 1 && FullCount(4) == 5 && FullCount(3) == 21 && FullCount(2) == 85;
  }

  lemma LevelStep(i: nat)
    requires i < MAX_DEPTH
    ensures Power(4, i) * FullCount(i) == Power(4, i) + Power(4, i + 1) * FullCount(i + 1)
  {
    var p, f := Power(4, i), FullCount(i + 1);
    assert FullCount(i) == 1 + 4 * f && Power(4, i + 1) == p * 4;
    assert p * (1 + 4 * f) == p + (p * 4) * f;
  }

  lemma TreeChildren(pool: seq<QuadNode>, path: seq<seq<nat>>, parent: seq<nat>, i: nat)
    requires OneTree(pool, path, parent) && i < |path| && pool[i].children != []
    ensures i < |path| <= |pool| && HasChildren(pool, path, i)
  {}

  lemma UpdatesDivide(pool: seq<QuadNode>, path: seq<seq<nat>>, i: nat, pool': seq<QuadNode>, path': seq<seq<nat>>)
    requires i < |path| && |path| + 4 <= |pool|
    requires path' == path + [path[i] + [0], path[i] + [1], path[i] + [2], path[i] + [3]]
    requires var n, depth, b := |path|, pool[i].depth + 1, pool[i].bounds;
      pool' == pool[i := pool[i].(children := [n, n + 1, n + 2, n + 3])]
                   [n := pool[n].(bounds := Quadrant(b, 0), depth := depth)]
                   [n + 1 := pool[n + 1].(bounds := Quadrant(b, 1), depth := depth)]
                   [n + 2 := pool[n + 2].(bounds := Quadrant(b, 2), depth := depth)]
                   [n + 3 := pool[n + 3].(bounds := Quadrant(b, 3), depth := depth)]
    ensures Divided(pool, path, i, pool', path')
  {
    hide Quadrant;
    forall j | |path| <= j < |path'|
      ensures path'[j] == path[i] + [j - |path|] && Fresh(pool[i], pool[j], pool'[j], j - |path|)
    {
      var k := j - |path|;
      assert k == 0 || k == 1 || k == 2 || k == 3;
    }
  }

  predicate Fresh(node: QuadNode, before: QuadNode, after: QuadNode, k: nat)
    requires k < 4
  {
    after == before.(bounds := Quadrant(node.bounds, k), depth := node.depth + 1)
  }

  lemma DividedChildren(pool: seq<QuadNode>, path: seq<seq<nat>>, i: nat, pool': seq<QuadNode>, path': seq<seq<nat>>,
      j: nat)
    requires Divided(pool, path, i, pool', path') && j < |path|
    requires j == i || HasChildren(pool, path, j)
    ensures HasChildren(pool', path', j)
  {
    hide Quadrant;
    if j == i {
      forall k | 0 <= k < 4
        ensures pool'[pool'[i].children[k]].bounds == Quadrant(pool'[i].bounds, k)
        ensures pool'[pool'[i].children[k]].depth == pool'[i].depth + 1
        ensures path'[pool'[i].children[k]] == path'[i] + [k]
      {
        assert pool'[i].children[k] == |path| + k;
        assert Fresh(pool[i], pool[|path| + k], pool'[|path| + k], |path| + k - |path|);
      }
    } else {
      forall k | 0 <= k < 4
        ensures pool'[pool[j].children[k]].bounds == pool[pool[j].children[k]].bounds
        ensures pool'[pool[j].children[k]].depth == pool[pool[j].children[k]].depth
      {}
    }
  }

  lemma DividedPositions(pool: seq<QuadNode>, path: seq<seq<nat>>, parent: seq<nat>, i: nat,
                         pool': seq<QuadNode>, path': seq<seq<nat>>, parent': seq<nat>, j: nat)
    requires Divided(pool, path, i, pool', path') && parent' == parent + [i, i, i, i]
    requires |parent| == |path| && 0 < j < |path'| && (j < |path| ==> HangsBelow(pool, path, parent, j))
    ensures HangsBelow(pool', path', parent', j)
  {
    if j >= |path| {
      assert parent'[j] == i;
    }
  }

  /** Giving a childless node four blank children keeps the pool one tree. */
  lemma DividedTree(pool: seq<QuadNode>, path: seq<seq<nat>>, parent: seq<nat>, i: nat,
                    pool': seq<QuadNode>, path': seq<seq<nat>>, parent': seq<nat>)
    requires OneTree(pool, path, parent) && Divided(pool, path, i, pool', path') && parent' == parent + [i, i, i, i]
    requires pool[i].children == []
    requires path' == path + [path[i] + [0], path[i] + [1], path[i] + [2], path[i] + [3]]
    ensures OneTree(pool', path', parent') && Grows(pool, path, pool', path', i) && HasChildren(pool', path', i)
    ensures forall k :: 0 <= k < 4 ==> Blank(pool'[pool'[i].children[k]])
  {
    hide Quadrant, HasChildren, HangsBelow;
    NewPositions(pool, path, parent, i, path');
    DividedChildren(pool, path, i, pool', path', i);
    forall j | 0 <= j < |path| && pool'[j].children != [] ensures HasChildren(pool', path', j) {
      DividedChildren(pool, path, i, pool', path', j);
    }
    forall j | 0 < j < |path'| ensures HangsBelow(pool', path', parent', j) {
      DividedPositions(pool, path, parent, i, pool', path', parent', j);
    }
  }

  lemma PositionFree(pool: seq<QuadNode>, path: seq<seq<nat>>, parent: seq<nat>, i: nat, j: nat, k: nat)
    requires OneTree(pool, path, parent) && i < |path| && pool[i].children == [] && j < |path|
    ensures path[j] != path[i] + [k]
  {
    assert (path[i] + [k])[..|path[i]|] == path[i];
    if 0 < j {
      assert HangsBelow(pool, path, parent, j);
    }
  }

  /** The positions of the new children are new, because `i` had no children. */
  lemma NewPositions(pool: seq<QuadNode>, path: seq<seq<nat>>, parent: seq<nat>, i: nat, path': seq<seq<nat>>)
    requires OneTree(pool, path, parent) && i < |path| && pool[i].children == []
    requires path' == path + [path[i] + [0], path[i] + [1], path[i] + [2], path[i] + [3]]
    ensures forall a, b :: 0 <= a < |path'| && 0 <= b < |path'| && path'[a] == path'[b] ==> a == b
  {
    forall j, k: nat | 0 <= j < |path| && k < 4 ensures path[j] != path[i] + [k] {
      PositionFree(pool, path, parent, i, j, k);
    }
    forall a | |path| <= a < |path'| ensures path'[a] == path[i] + [a - |path|] {}
    forall a, b | 0 <= a < |path'| && 0 <= b < |path'| && path'[a] == path'[b] ensures a == b {
      if a >= |path| && b >= |path| {
        SiblingsApart(path[i], a - |path|, b - |path|, path'[a]);
      }
    }
  }
}
