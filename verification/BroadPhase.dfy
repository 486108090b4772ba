/** The leaf traversal of the batch tree against the brute-force check of all pairs. */
module BroadPhase {
  import opened RealArith
  import opened Geometry
  import opened NarrowPhase
  import opened ConvexPolygons
  import opened QuadTrees

  type Pair = (ColliderRefAabb, ColliderRefAabb)

  // ----------------------------------------------------------------- the visited pairs

  /** The pairs of entry `i` with the entries before `j` and after `i`, in order. */
  function RowPairs(s: seq<ColliderRefAabb>, i: nat, j: nat): (r: seq<Pair>)
    requires i < |s| && i < j <= |s|
  {
    if j == i + 1 then [] else RowPairs(s, i, j - 1) + [(s[i], s[j - 1])]
  }

  /** The pairs of the first `i` entries of a leaf with all later entries, in order. */
  function LeafPairs(s: seq<ColliderRefAabb>, i: nat): seq<Pair>
    requires i <= |s|
  {
    if i == 0 then [] else LeafPairs(s, i - 1) + RowPairs(s, i - 1, |s|)
  }

  /** The pairs visited by a traversal of the batch tree. */
  function Visits(b: Rectangle, depth: nat, s: seq<ColliderRefAabb>): seq<Pair>
    decreases MAX_DEPTH - depth, 5
  {
    if Splits(depth, s) then ChildVisits(b, depth, s, 4) else LeafPairs(s, |s|)
  }

  function ChildVisits(b: Rectangle, depth: nat, s: seq<ColliderRefAabb>, k: nat): seq<Pair>
    requires depth < MAX_DEPTH && k <= 4
    decreases MAX_DEPTH - depth, k
  {
    if k == 0 then []
    else ChildVisits(b, depth, s, k - 1) + Visits(Quadrant(b, k - 1), depth + 1, Hits(s, Quadrant(b, k - 1)))
  }

  // -------------------------------------------------------------------- soundness

  /** `x` stands before `y` in `s`. */
  ghost predicate InOrder(s: seq<ColliderRefAabb>, x: ColliderRefAabb, y: ColliderRefAabb) {
    exists p, q :: 0 <= p < q < |s| && s[p] == x && s[q] == y
  }

  /** `v` pairs entry `i` with a later entry before `j`. */
  ghost predicate InRow(s: seq<ColliderRefAabb>, i: nat, j: nat, v: Pair) {
    exists q :: i < q < j <= |s| && v == (s[i], s[q])
  }

  lemma {:induction false} RowPairsAre(s: seq<ColliderRefAabb>, i: nat, j: nat, v: Pair)
    requires i < |s| && i < j <= |s|
    ensures v in RowPairs(s, i, j) <==> InRow(s, i, j, v)
  {
    if j > i + 1 {
      RowPairsAre(s, i, j - 1, v);
      if v == (s[i], s[j - 1]) {
        assert v in RowPairs(s, i, j);
      }
    }
  }

  lemma {:induction false} LeafPairsAre(s: seq<ColliderRefAabb>, i: nat, v: Pair)
    requires i <= |s|
    ensures v in LeafPairs(s, i) <==> exists p: nat :: p < i && InRow(s, p, |s|, v)
  {
    hide RowPairs, InRow;
    if i > 0 {
      LeafPairsAre(s, i - 1, v);
      RowPairsAre(s, i - 1, |s|, v);
      assert v in LeafPairs(s, i) <==> v in LeafPairs(s, i - 1) || v in RowPairs(s, i - 1, |s|);
    }
  }

  /** A leaf visits exactly the pairs of its entries, each in order. */
  lemma LeafVisits(s: seq<ColliderRefAabb>, v: Pair)
    ensures v in LeafPairs(s, |s|) <==> InOrder(s, v.0, v.1)
  {
    LeafPairsAre(s, |s|, v);
    hide LeafPairs;
    if p: nat :| p < |s| && InRow(s, p, |s|, v) {
      var q :| p < q < |s| && v == (s[p], s[q]);
      assert s[p] == v.0 && s[q] == v.1;
    }
    if InOrder(s, v.0, v.1) {
      var p: nat, q :| p < q < |s| && s[p] == v.0 && s[q] == v.1;
      assert InRow(s, p, |s|, v);
    }
  }

  lemma {:induction false} HitsOf(s: seq<ColliderRefAabb>, b: Rectangle, x: ColliderRefAabb)
    ensures x in Hits(s, b) <==> x in s && RectanglesIntersect(x.aabb, b)
  {
    if s != [] {
      var n := |s| - 1;
      HitsOf(s[..n], b, x);
      assert s == s[..n] + [s[n]];
    }
  }

  /** Selecting entries keeps their order, in both directions. */
  lemma {:induction false} HitsInOrder(s: seq<ColliderRefAabb>, b: Rectangle, x: ColliderRefAabb, y: ColliderRefAabb)
    ensures InOrder(Hits(s, b), x, y) <==>
            InOrder(s, x, y) && RectanglesIntersect(x.aabb, b) && RectanglesIntersect(y.aabb, b)
  {
    if s != [] {
      var n := |s| - 1;
      HitsInOrder(s[..n], b, x, y);
      HitsOf(s[..n], b, x);
      assert s == s[..n] + [s[n]];
      hide RectanglesIntersect, Hits;
      InOrderAppend(s[..n], s[n], x, y);
      InOrderAppend(Hits(s[..n], b), s[n], x, y);
      HitsAppend(s[..n], s[n], b);
    }
  }

  lemma InOrderAppend(s: seq<ColliderRefAabb>, z: ColliderRefAabb, x: ColliderRefAabb, y: ColliderRefAabb)
    ensures InOrder(s + [z], x, y) <==> InOrder(s, x, y) || (x in s && y == z)
  {
    var t := s + [z];
    if InOrder(t, x, y) {
      var p, q :| 0 <= p < q < |t| && t[p] == x && t[q] == y;
      assert s[p] == x;
      if q < |s| {
        assert s[q] == y;
      }
    }
    if InOrder(s, x, y) {
      var p, q :| 0 <= p < q < |s| && s[p] == x && s[q] == y;
      assert t[p] == x && t[q] == y;
    }
    if x in s && y == z {
      var p :| 0 <= p < |s| && s[p] == x;
      assert t[p] == x && t[|s|] == y;
    }
  }

  /** Every visited pair is a pair of inserted entries, in the order of insertion. */
  lemma {:induction false} VisitsSound(b: Rectangle, depth: nat, s: seq<ColliderRefAabb>, v: Pair)
    requires v in Visits(b, depth, s)
    ensures InOrder(s, v.0, v.1)
    decreases MAX_DEPTH - depth, 5
  {
    hide InOrder, Quadrant, Hits, LeafPairs;
    if Splits(depth, s) {
      ChildVisitsSound(b, depth, s, 4, v);
    } else {
      LeafVisits(s, v);
    }
  }

  lemma {:induction false} ChildVisitsSound(b: Rectangle, depth: nat, s: seq<ColliderRefAabb>, k: nat, v: Pair)
    requires depth < MAX_DEPTH && k <= 4 && v in ChildVisits(b, depth, s, k)
    ensures InOrder(s, v.0, v.1)
    decreases MAX_DEPTH - depth, k
  {
    hide InOrder, Quadrant, Hits, LeafPairs, Visits;
    var q := Quadrant(b, k - 1);
    if v in ChildVisits(b, depth, s, k - 1) {
      ChildVisitsSound(b, depth, s, k - 1, v);
    } else {
      VisitsSound(q, depth + 1, Hits(s, q), v);
      HitsInOrder(s, q, v.0, v.1);
    }
  }

  // ----------------------------------------------------------------- completeness

  /** The quadrants cover their parent. */
  lemma QuadrantsCover(b: Rectangle, x: Vec2) returns (k: nat)
    requires b.Contains(x)
    ensures k < 4 && Quadrant(b, k).Contains(x)
  {
    var half := b.maxBound.Sub(b.minBound).Scale(0.5);
    var right, high := x.x > b.minBound.x + half.x, x.y > b.minBound.y + half.y;
    k := if right then if high then 3 else 2 else if high then 1 else 0;
  }

  /** Each quadrant lies in its parent and has half its width and height; no two have an inner point in common. */
  lemma QuadrantsExact(b: Rectangle, k: nat, m: nat, x: Vec2)
    requires k < 4 && m < 4 && b.Ordered()
    ensures Inside(Quadrant(b, k), b)
    ensures Quadrant(b, k).HalfSize() == b.HalfSize().Scale(0.5)
    ensures Within(Quadrant(b, k), x) && Within(Quadrant(b, m), x) ==> k == m
  {}

  /** `x` is an inner point. */
  predicate Within(r: Rectangle, x: Vec2) {
    r.minBound.x < x.x < r.maxBound.x && r.minBound.y < x.y < r.maxBound.y
  }

  lemma BoxesMeet(a: Rectangle, b: Rectangle, x: Vec2)
    requires a.Contains(x) && b.Contains(x)
    ensures RectanglesIntersect(a, b)
  {}

  lemma {:induction false} ChildVisited(b: Rectangle, depth: nat, s: seq<ColliderRefAabb>, k: nat, m: nat, v: Pair)
    requires depth < MAX_DEPTH && k < m <= 4
    requires v in Visits(Quadrant(b, k), depth + 1, Hits(s, Quadrant(b, k)))
    ensures v in ChildVisits(b, depth, s, m)
    decreases m
  {
    hide Quadrant, Hits, Visits;
    if k < m - 1 {
      ChildVisited(b, depth, s, k, m - 1, v);
    }
  }

  /** Two entries whose boxes share a point of the root are visited together. */
  lemma {:induction false} SharedPointVisited(b: Rectangle, depth: nat, s: seq<ColliderRefAabb>,
                                              x: ColliderRefAabb, y: ColliderRefAabb, pt: Vec2)
    requires InOrder(s, x, y) && b.Contains(pt) && x.aabb.Contains(pt) && y.aabb.Contains(pt)
    ensures (x, y) in Visits(b, depth, s)
    decreases MAX_DEPTH - depth
  {
    if Splits(depth, s) {
      var k := QuadrantsCover(b, pt);
      var q := Quadrant(b, k);
      BoxesMeet(x.aabb, q, pt);
      BoxesMeet(y.aabb, q, pt);
      hide InOrder, Quadrant, Hits, ChildVisits, LeafPairs;
      HitsInOrder(s, q, x, y);
      SharedPointVisited(q, depth + 1, Hits(s, q), x, y, pt);
      ChildVisited(b, depth, s, k, 4, (x, y));
    } else {
      LeafVisits(s, (x, y));
    }
  }

  /** Both boxes meet all the rectangles on the way to some leaf below the node. */
  ghost predicate MeetInLeaf(b: Rectangle, depth: nat, s: seq<ColliderRefAabb>, x: Rectangle, y: Rectangle)
    decreases MAX_DEPTH - depth
  {
    Splits(depth, s) ==>
      exists k: nat ::
        k < 4 && BothMeet(Quadrant(b, k), x, y) &&
        MeetInLeaf(Quadrant(b, k), depth + 1, Hits(s, Quadrant(b, k)), x, y)
  }

  predicate BothMeet(q: Rectangle, x: Rectangle, y: Rectangle) {
    RectanglesIntersect(x, q) && RectanglesIntersect(y, q)
  }

  lemma {:induction false} VisitedInChild(b: Rectangle, depth: nat, s: seq<ColliderRefAabb>, m: nat, v: Pair)
      returns (k: nat)
    requires depth < MAX_DEPTH && m <= 4 && v in ChildVisits(b, depth, s, m)
    ensures k < 4 && v in Visits(Quadrant(b, k), depth + 1, Hits(s, Quadrant(b, k)))
    decreases m
  {
    hide Quadrant, Hits, Visits;
    k := m - 1;
    if v in ChildVisits(b, depth, s, k) {
      k := VisitedInChild(b, depth, s, k, v);
    }
  }

  /** Exactly which pairs a traversal visits: entries that meet in some leaf, the earlier one first. */
  lemma {:induction false} VisitedIff(b: Rectangle, depth: nat, s: seq<ColliderRefAabb>, x: ColliderRefAabb,
      y: ColliderRefAabb)
    ensures (x, y) in Visits(b, depth, s) <==> InOrder(s, x, y) && MeetInLeaf(b, depth, s, x.aabb, y.aabb)
    decreases MAX_DEPTH - depth
  {
    hide InOrder, Quadrant, Hits, LeafPairs, ChildVisits, RectanglesIntersect;
    if !Splits(depth, s) {
      LeafVisits(s, (x, y));
    } else {
      forall k: nat | k < 4
        ensures (x, y) in Visits(Quadrant(b, k), depth + 1, Hits(s, Quadrant(b, k))) <==>
          InOrder(s, x, y) && BothMeet(Quadrant(b, k), x.aabb, y.aabb) &&
          MeetInLeaf(Quadrant(b, k), depth + 1, Hits(s, Quadrant(b, k)), x.aabb, y.aabb)
      {
        VisitedIff(Quadrant(b, k), depth + 1, Hits(s, Quadrant(b, k)), x, y);
        HitsInOrder(s, Quadrant(b, k), x, y);
      }
      if (x, y) in Visits(b, depth, s) {
        var k := VisitedInChild(b, depth, s, 4, (x, y));
      }
      if InOrder(s, x, y) && MeetInLeaf(b, depth, s, x.aabb, y.aabb) {
        var k: nat :| k < 4 && BothMeet(Quadrant(b, k), x.aabb, y.aabb) &&
          MeetInLeaf(Quadrant(b, k), depth + 1, Hits(s, Quadrant(b, k)), x.aabb, y.aabb);
        ChildVisited(b, depth, s, k, 4, (x, y));
      }
    }
  }

  // ------------------------------------------------- the shape of the tree and the order of insertion

  lemma {:induction false} HitsMultiset(s: seq<ColliderRefAabb>, b: Rectangle, x: ColliderRefAabb)
    ensures multiset(Hits(s, b))[x] == if RectanglesIntersect(x.aabb, b) then multiset(s)[x] else 0
  {
    hide RectanglesIntersect;
    if s != [] {
      var n := |s| - 1;
      HitsMultiset(s[..n], b, x);
      assert s == s[..n] + [s[n]];
    }
  }

  lemma SameHits(s: seq<ColliderRefAabb>, t: seq<ColliderRefAabb>, b: Rectangle)
    requires multiset(s) == multiset(t)
    ensures multiset(Hits(s, b)) == multiset(Hits(t, b))
  {
    forall x ensures multiset(Hits(s, b))[x] == multiset(Hits(t, b))[x] {
      HitsMultiset(s, b, x);
      HitsMultiset(t, b, x);
    }
  }

  lemma SameSize(s: seq<ColliderRefAabb>, t: seq<ColliderRefAabb>)
    requires multiset(s) == multiset(t)
    ensures |s| == |t|
  {
    assert |multiset(s)| == |s| && |multiset(t)| == |t|;
  }

  /** The leaves in traversal order. */
  function Leaves(b: Rectangle, depth: nat, s: seq<ColliderRefAabb>): seq<seq<ColliderRefAabb>>
    decreases MAX_DEPTH - depth, 5
  {
    if Splits(depth, s) then ChildLeaves(b, depth, s, 4) else [s]
  }

  function ChildLeaves(b: Rectangle, depth: nat, s: seq<ColliderRefAabb>, k: nat): seq<seq<ColliderRefAabb>>
    requires depth < MAX_DEPTH && k <= 4
    decreases MAX_DEPTH - depth, k
  {
    if k == 0 then []
    else ChildLeaves(b, depth, s, k - 1) + Leaves(Quadrant(b, k - 1), depth + 1, Hits(s, Quadrant(b, k - 1)))
  }

  /** Within a leaf the entries stand in the order of insertion. */
  lemma {:induction false} LeavesInOrder(b: Rectangle, depth: nat, s: seq<ColliderRefAabb>, leaf: seq<ColliderRefAabb>,
                                         x: ColliderRefAabb, y: ColliderRefAabb)
    requires leaf in Leaves(b, depth, s) && InOrder(leaf, x, y)
    ensures InOrder(s, x, y)
    decreases MAX_DEPTH - depth, 5
  {
    hide InOrder, Quadrant, Hits;
    if Splits(depth, s) {
      ChildLeavesInOrder(b, depth, s, 4, leaf, x, y);
    }
  }

  lemma {:induction false} ChildLeavesInOrder(b: Rectangle, depth: nat, s: seq<ColliderRefAabb>, k: nat,
                                              leaf: seq<ColliderRefAabb>, x: ColliderRefAabb, y: ColliderRefAabb)
    requires depth < MAX_DEPTH && k <= 4 && leaf in ChildLeaves(b, depth, s, k) && InOrder(leaf, x, y)
    ensures InOrder(s, x, y)
    decreases MAX_DEPTH - depth, k
  {
    hide InOrder, Quadrant, Hits, Leaves;
    var q := Quadrant(b, k - 1);
    if leaf in ChildLeaves(b, depth, s, k - 1) {
      ChildLeavesInOrder(b, depth, s, k - 1, leaf, x, y);
    } else {
      LeavesInOrder(q, depth + 1, Hits(s, q), leaf, x, y);
      HitsInOrder(s, q, x, y);
    }
  }

  /** The double loop over each of the leaves, in order. */
  function PairsByLeaf(leaves: seq<seq<ColliderRefAabb>>): seq<Pair> {
    if leaves == [] then []
    else PairsByLeaf(leaves[..|leaves| - 1]) + LeafPairs(leaves[|leaves| - 1], |leaves[|leaves| - 1]|)
  }

  lemma {:induction false} PairsByLeafConcat(p: seq<seq<ColliderRefAabb>>, q: seq<seq<ColliderRefAabb>>)
    ensures PairsByLeaf(p + q) == PairsByLeaf(p) + PairsByLeaf(q)
  {
    hide LeafPairs;
    if q == [] {
      assert p + q == p;
    } else {
      var n := |q| - 1;
      PairsByLeafConcat(p, q[..n]);
      assert (p + q)[..|p + q| - 1] == p + q[..n];
    }
  }

  /** A traversal visits the pairs of each leaf once, leaf after leaf, and nothing else. */
  lemma {:induction false} VisitsByLeaf(b: Rectangle, depth: nat, s: seq<ColliderRefAabb>)
    ensures Visits(b, depth, s) == PairsByLeaf(Leaves(b, depth, s))
    decreases MAX_DEPTH - depth, 5
  {
    hide Quadrant, Hits, LeafPairs;
    if Splits(depth, s) {
      ChildVisitsByLeaf(b, depth, s, 4);
    } else {
      assert PairsByLeaf([s]) == PairsByLeaf([]) + LeafPairs(s, |s|);
    }
  }

  lemma {:induction false} ChildVisitsByLeaf(b: Rectangle, depth: nat, s: seq<ColliderRefAabb>, k: nat)
    requires depth < MAX_DEPTH && k <= 4
    ensures ChildVisits(b, depth, s, k) == PairsByLeaf(ChildLeaves(b, depth, s, k))
    decreases MAX_DEPTH - depth, k
  {
    hide Quadrant, Hits, LeafPairs, Leaves, Visits;
    if k > 0 {
      var q := Quadrant(b, k - 1);
      ChildVisitsByLeaf(b, depth, s, k - 1);
      VisitsByLeaf(q, depth + 1, Hits(s, q));
      PairsByLeafConcat(ChildLeaves(b, depth, s, k - 1), Leaves(q, depth + 1, Hits(s, q)));
    }
  }

  /** In a tree whose inner nodes have four children each, the leaves are three quarters of the nodes. */
  lemma {:induction false} LeafCount(b: Rectangle, depth: nat, s: seq<ColliderRefAabb>)
    ensures 4 * |Leaves(b, depth, s)| == 3 * NodeCount(b, depth, s) + 1
    decreases MAX_DEPTH - depth, 5
  {
    hide Quadrant, Hits;
    if Splits(depth, s) {
      ChildLeafCount(b, depth, s, 4);
    }
  }

  lemma {:induction false} ChildLeafCount(b: Rectangle, depth: nat, s: seq<ColliderRefAabb>, k: nat)
    requires depth < MAX_DEPTH && k <= 4
    ensures 4 * |ChildLeaves(b, depth, s, k)| == 3 * ChildCount(b, depth, s, k) + k
    decreases MAX_DEPTH - depth, k
  {
    hide Quadrant, Hits, Leaves, NodeCount;
    if k > 0 {
      ChildLeafCount(b, depth, s, k - 1);
      LeafCount(Quadrant(b, k - 1), depth + 1, Hits(s, Quadrant(b, k - 1)));
    }
  }

  /** No entry stands twice. */
  predicate Distinct(s: seq<ColliderRefAabb>) { forall p, q :: 0 <= p < q < |s| ==> s[p] != s[q] }

  lemma {:induction false} RowOnce(s: seq<ColliderRefAabb>, i: nat, j: nat, v: Pair)
    requires i < |s| && i < j <= |s| && Distinct(s)
    ensures multiset(RowPairs(s, i, j))[v] <= 1
  {
    if j > i + 1 {
      RowOnce(s, i, j - 1, v);
      RowPairsAre(s, i, j - 1, v);
    }
  }

  lemma {:induction false} RowsOnce(s: seq<ColliderRefAabb>, i: nat, v: Pair)
    requires i <= |s| && Distinct(s)
    ensures multiset(LeafPairs(s, i))[v] <= 1
  {
    hide RowPairs, Distinct;
    if i > 0 {
      RowsOnce(s, i - 1, v);
      RowOnce(s, i - 1, |s|, v);
      OneRow(s, i - 1, v);
      assert multiset(LeafPairs(s, i)) == multiset(LeafPairs(s, i - 1)) + multiset(RowPairs(s, i - 1, |s|));
    }
  }

  lemma OneRow(s: seq<ColliderRefAabb>, i: nat, v: Pair)
    requires i < |s| && Distinct(s)
    ensures v !in RowPairs(s, i, |s|) || v !in LeafPairs(s, i)
  {
    hide RowPairs, LeafPairs;
    RowPairsAre(s, i, |s|, v);
    LeafPairsAre(s, i, v);
    if p: nat :| p < i && InRow(s, p, |s|, v) {
      assert v.0 == s[p] != s[i];
    }
  }

  /** The double loop over a leaf of distinct entries meets each pair once: not twice, and not in both orders. */
  lemma LeafOnce(s: seq<ColliderRefAabb>, x: ColliderRefAabb, y: ColliderRefAabb)
    requires Distinct(s)
    ensures multiset(LeafPairs(s, |s|))[(x, y)] == if InOrder(s, x, y) then 1 else 0
    ensures InOrder(s, x, y) ==> !InOrder(s, y, x)
  {
    RowsOnce(s, |s|, (x, y));
    LeafVisits(s, (x, y));
  }

  predicate SameLeaves(p: seq<seq<ColliderRefAabb>>, q: seq<seq<ColliderRefAabb>>) {
    |p| == |q| && forall i :: 0 <= i < |p| ==> multiset(p[i]) == multiset(q[i])
  }

  /** Inserting the same entries in another order gives the same tree with the same leaf contents. */
  lemma {:induction false} OrderIrrelevant(b: Rectangle, depth: nat, s: seq<ColliderRefAabb>, t: seq<ColliderRefAabb>)
    requires multiset(s) == multiset(t)
    ensures SameLeaves(Leaves(b, depth, s), Leaves(b, depth, t))
    ensures NodeCount(b, depth, s) == NodeCount(b, depth, t)
    decreases MAX_DEPTH - depth, 5
  {
    SameSize(s, t);
    hide Quadrant, Hits;
    if Splits(depth, s) {
      ChildOrderIrrelevant(b, depth, s, t, 4);
    }
  }

  lemma {:induction false} ChildOrderIrrelevant(b: Rectangle, depth: nat, s: seq<ColliderRefAabb>,
      t: seq<ColliderRefAabb>,
                                                k: nat)
    requires depth < MAX_DEPTH && k <= 4 && multiset(s) == multiset(t)
    ensures SameLeaves(ChildLeaves(b, depth, s, k), ChildLeaves(b, depth, t, k))
    ensures ChildCount(b, depth, s, k) == ChildCount(b, depth, t, k)
    decreases MAX_DEPTH - depth, k
  {
    hide Quadrant, Hits, Leaves, NodeCount;
    if k > 0 {
      var q := Quadrant(b, k - 1);
      ChildOrderIrrelevant(b, depth, s, t, k - 1);
      SameHits(s, t, q);
      OrderIrrelevant(q, depth + 1, Hits(s, q), Hits(t, q));
    }
  }

  // ------------------------------------------------------------------ bounding boxes

  /** The seeds of the running minimum and maximum: the largest and the smallest positive single. */
  const FLOAT_MAX: real := 340282346638528859811704183484516925440.0
  const FLOAT_MIN: real := 1.0 / 85070591730234615865843651857942052864.0

  function Grow(box: Rectangle, lo: Vec2, hi: Vec2): Rectangle {
    Rectangle(Vec2(Min(box.minBound.x, lo.x), Min(box.minBound.y, lo.y)),
              Vec2(Max(box.maxBound.x, hi.x), Max(box.maxBound.y, hi.y)))
  }

  const SEED := Rectangle(Vec2(FLOAT_MAX, FLOAT_MAX), Vec2(FLOAT_MIN, FLOAT_MIN))

  predicate Inside(inner: Rectangle, outer: Rectangle) {
    && outer.minBound.x <= inner.minBound.x && outer.minBound.y <= inner.minBound.y
    && inner.maxBound.x <= outer.maxBound.x && inner.maxBound.y <= outer.maxBound.y
  }

  function PolygonBox(vs: seq<Vec2>): (r: Rectangle)
    ensures forall i :: 0 <= i < |vs| ==> Inside(Rectangle(vs[i], vs[i]), r)
  {
    if vs == [] then SEED
    else
      var v := vs[|vs| - 1];
      Grow(PolygonBox(vs[..|vs| - 1]), v, v)
  }

  /** `Collider::GetBounds` for a body at `at`. */
  function BoundsOf(shape: Shape, at: Vec2): Rectangle {
    match shape
    case CircleShape(c) => Rectangle.FromCenter(c.center, Vec2(c.radius, c.radius)).Move(at)
    case RectangleShape(r) => r.Move(at)
    case PolygonShape(vs) => PolygonBox(vs).Move(at)
  }

  method GetBounds(shape: Shape, at: Vec2) returns (r: Rectangle)
    ensures r == BoundsOf(shape, at)
  {
    match shape {
      case CircleShape(c) => r := Rectangle.FromCenter(c.center, Vec2(c.radius, c.radius)).Move(at);
      case RectangleShape(rect) => r := rect.Move(at);
      case PolygonShape(vs) =>
        var box := SEED;
        for k := 0 to |vs|
          invariant box == PolygonBox(vs[..k])
        {
          assert vs[..k + 1][..k] == vs[..k];
          box := Grow(box, vs[k], vs[k]);
        }
        assert vs[..|vs|] == vs;
        r := box.Move(at);
    }
  }

  /** Every point of a placed shape lies in its bounding box. */
  lemma BoundsSound(shape: Shape, at: Vec2, x: Vec2)
    requires PointOf(MoveShape(shape, at), x)
    ensures BoundsOf(shape, at).Contains(x)
  {
    match shape {
      case CircleShape(c) => DiskInBox(c.Move(at), x);
      case RectangleShape(r) =>
      case PolygonShape(vs) =>
        HullInRectangle(MoveVertices(vs, at), BoundsOf(shape, at), x);
    }
  }

  /** And no smaller box will do: one that holds every point of a circle or of an ordered rectangle holds its bounding
      box. That of a polygon also reaches to the two seeds of the search, which stand in the way of a tight one. */
  lemma BoundsTight(shape: Shape, at: Vec2, box: Rectangle)
    requires forall x :: PointOf(MoveShape(shape, at), x) ==> box.Contains(x)
    requires shape.RectangleShape? ==> shape.rect.Ordered()
    requires shape.PolygonShape? ==> Inside(SEED.Move(at), box)
    ensures Inside(BoundsOf(shape, at), box)
  {
    match shape {
      case CircleShape(c) => ExtremePoints(c, at, box);
      case RectangleShape(r) =>
        assert PointOf(MoveShape(shape, at), r.Move(at).minBound) && PointOf(MoveShape(shape, at), r.Move(at).maxBound);
      case PolygonShape(vs) =>
        hide InHull, MoveVertices;
        forall i | 0 <= i < |vs| ensures box.Contains(vs[i].Add(at)) {
          VertexInHull(MoveVertices(vs, at), i);
          assert PointOf(PolygonShape(MoveVertices(vs, at)), MoveVertices(vs, at)[i]);
        }
        PolygonBoxTight(vs, at, box);
    }
  }

  lemma ExtremePoints(c: Circle, at: Vec2, box: Rectangle)
    requires forall x :: PointOf(CircleShape(c.Move(at)), x) ==> box.Contains(x)
    ensures Inside(Rectangle.FromCenter(c.center, Vec2(c.radius, c.radius)).Move(at), box)
  {
    hide Circle.Contains;
    var m, r: real := c.Move(at), c.radius;
    forall d | d == Vec2(r, 0.0) || d == Vec2(-r, 0.0) || d == Vec2(0.0, r) || d == Vec2(0.0, -r)
      ensures box.Contains(m.center.Add(d))
    {
      OnCircle(m, d);
      assert PointOf(CircleShape(m), m.center.Add(d));
    }
    assert box.Contains(m.center.Add(Vec2(r, 0.0))) && box.Contains(m.center.Add(Vec2(-r, 0.0)));
    assert box.Contains(m.center.Add(Vec2(0.0, r))) && box.Contains(m.center.Add(Vec2(0.0, -r)));
  }

  lemma OnCircle(c: Circle, d: Vec2)
    requires d.LengthSq() == c.radius * c.radius
    ensures c.Contains(c.center.Add(d))
  {
    assert c.center.Sub(c.center.Add(d)) == Vec2(-d.x, -d.y);
  }

  lemma {:induction false} PolygonBoxTight(vs: seq<Vec2>, at: Vec2, box: Rectangle)
    requires Inside(SEED.Move(at), box) && forall i :: 0 <= i < |vs| ==> box.Contains(vs[i].Add(at))
    ensures Inside(PolygonBox(vs).Move(at), box)
  {
    if vs != [] {
      PolygonBoxTight(vs[..|vs| - 1], at, box);
    }
  }

  lemma DiskInBox(c: Circle, x: Vec2)
    requires c.Contains(x)
    ensures Rectangle.FromCenter(c.center, Vec2(c.radius, c.radius)).Contains(x)
  {
    SumWithin(c.center.x - x.x, c.center.y - x.y, c.radius);
  }

  lemma BoundaryInBox(vs: Vertices, box: Rectangle, x: Vec2)
    requires OnBoundary(vs, x)
    requires forall i :: 0 <= i < |vs| ==> Inside(Rectangle(vs[i], vs[i]), box)
    ensures box.Contains(x)
  {
    hide OnSegment;
    var i: nat {:trigger Previous(i, |vs|)} :| i < |vs| && OnSegment(vs[i], vs[Previous(i, |vs|)], x);
    var a, b := vs[i], vs[Previous(i, |vs|)];
    assert Inside(Rectangle(a, a), box) && Inside(Rectangle(b, b), box);
    SegmentInBox(a, b, x, box);
  }

  lemma SegmentInBox(a: Vec2, b: Vec2, x: Vec2, box: Rectangle)
    requires OnSegment(a, b, x) && Inside(Rectangle(a, a), box) && Inside(Rectangle(b, b), box)
    ensures box.Contains(x)
  {
    var t :| At(a, b, x, t);
    BetweenInside(a.x, b.x, t, x.x, box.minBound.x, box.maxBound.x);
    BetweenInside(a.y, b.y, t, x.y, box.minBound.y, box.maxBound.y);
  }

  lemma BetweenInside(a: real, b: real, t: real, m: real, lo: real, hi: real)
    requires 0.0 <= t <= 1.0 && lo <= a <= hi && lo <= b <= hi && m == a + (b - a) * t
    ensures lo <= m <= hi
  {
    if a <= b {
      Portion(b - a, t, (b - a) * t);
    } else {
      Portion(a - b, t, (a - b) * t);
      assert m == a - (a - b) * t;
    }
  }

  lemma Portion(d: real, t: real, w: real)
    requires 0.0 <= d && 0.0 <= t <= 1.0 && w == d * t
    ensures 0.0 <= w <= d
  {
    var rest := d * (1.0 - t);
    ProductNonNegative(d, t);
    ProductNonNegative(d, 1.0 - t);
    assert w + rest == d;
  }

  predicate Proper(s: Shape) { s.RectangleShape? ==> s.rect.Ordered() }

  /** The pairs whose report forces the boxes to meet. On separating axes that takes a rectangle with area, or convex
      shapes that are not all on one line: `DartBoxesApart` shows a report without. */
  ghost predicate Trusted(s: Shape, t: Shape) {
    || !AxisTest(s, t)
    || (s.RectangleShape? && Broad(s.rect))
    || (t.RectangleShape? && Broad(t.rect))
    || (Regular(s) && Regular(t) && !OneLine(Outline(s), Outline(t)))
  }

  /** Two shapes that share a point, or are reported as overlapping, have boxes that share a point. */
  lemma BoxesShare(s: Shape, p: Vec2, t: Shape, q: Vec2) returns (x: Vec2)
    requires var s', t' := MoveShape(s, p), MoveShape(t, q);
      SharePoint(s', t') || (Overlap(s', t') && Proper(s') && Proper(t') && Trusted(s', t'))
    ensures BoundsOf(s, p).Contains(x) && BoundsOf(t, q).Contains(x)
  {
    hide PolygonsIntersect, PolygonCircleIntersect, RectangleCircleIntersect, OneLine, Regular, InHull, PolygonBox;
    var s', t' := MoveShape(s, p), MoveShape(t, q);
    if SharePoint(s', t') {
      x :| PointOf(s', x) && PointOf(t', x);
      BoundsSound(s, p, x);
      BoundsSound(t, q, x);
    } else if !AxisTest(s', t') {
      x := OtherBoxes(s, p, t, q);
    } else if s.RectangleShape? && Broad(s'.rect) {
      x := RectangleAxisBoxes(s.rect, p, t.vertices, q);
    } else if t.RectangleShape? && Broad(t'.rect) {
      x := RectangleAxisBoxes(t.rect, q, s.vertices, p);
    } else {
      OverlapIsCommonPoint(s', t');
    }
  }

  lemma OtherBoxes(s: Shape, p: Vec2, t: Shape, q: Vec2) returns (x: Vec2)
    requires var s', t' := MoveShape(s, p), MoveShape(t, q);
      Overlap(s', t') && Proper(s') && Proper(t') && !AxisTest(s', t') && !SharePoint(s', t')
    ensures BoundsOf(s, p).Contains(x) && BoundsOf(t, q).Contains(x)
  {
    if s.PolygonShape? {
      x := PolygonCircleBox(s.vertices, p, t.circle, q);
    } else if t.PolygonShape? {
      x := PolygonCircleBox(t.vertices, q, s.circle, p);
    } else {
      OverlapExact(MoveShape(s, p), MoveShape(t, q));
    }
  }

  lemma RectangleAxisBoxes(r: Rectangle, p: Vec2, vs: Vertices, q: Vec2) returns (x: Vec2)
    requires Broad(r.Move(p)) && PolygonsIntersect(MoveVertices(vs, q), r.Move(p).Corners())
    ensures r.Move(p).Contains(x) && BoundsOf(PolygonShape(vs), q).Contains(x)
  {
    var moved, box := MoveVertices(vs, q), BoundsOf(PolygonShape(vs), q);
    VerticesInBox(vs, q);
    ReportedMeetsBox(moved, r.Move(p), box);
    hide PolygonsIntersect;
    assert box.Contains(moved[0]);
    RectanglesExact(box, r.Move(p));
    x :| box.Contains(x) && r.Move(p).Contains(x);
  }

  lemma VerticesInBox(vs: Vertices, q: Vec2)
    ensures forall i :: 0 <= i < |vs| ==> BoundsOf(PolygonShape(vs), q).Contains(MoveVertices(vs, q)[i])
  {
    hide PolygonBox;
    forall i | 0 <= i < |vs| ensures BoundsOf(PolygonShape(vs), q).Contains(MoveVertices(vs, q)[i]) {
      assert Inside(Rectangle(vs[i], vs[i]), PolygonBox(vs));
    }
  }

  /** The boxes of the dart and the triangle, which are reported, are apart: the broad phase need not present them. */
  lemma DartBoxesApart()
    ensures Overlap(PolygonShape(DART), PolygonShape(TRIANGLE))
    ensures !RectanglesIntersect(BoundsOf(PolygonShape(DART), ZERO), BoundsOf(PolygonShape(TRIANGLE), ZERO))
  {
    hide PolygonsIntersect, PolygonBox, HasArea, Convex, InHull;
    DartReported(ZERO);
    assert FLOAT_MIN < 1.0 <= FLOAT_MAX;
    BoxBelow(DART, FLOAT_MIN);
    BoxAbove(TRIANGLE, 1.0);
    var d, t := PolygonBox(DART), PolygonBox(TRIANGLE);
    assert d.Move(ZERO).maxBound.y == d.maxBound.y && t.Move(ZERO).minBound.y == t.minBound.y;
  }

  lemma {:induction false} BoxBelow(vs: seq<Vec2>, top: real)
    requires top >= FLOAT_MIN && forall i :: 0 <= i < |vs| ==> vs[i].y <= top
    ensures PolygonBox(vs).maxBound.y <= top
  {
    if vs != [] {
      BoxBelow(vs[..|vs| - 1], top);
    }
  }

  lemma {:induction false} BoxAbove(vs: seq<Vec2>, bottom: real)
    requires bottom <= FLOAT_MAX && forall i :: 0 <= i < |vs| ==> vs[i].y >= bottom
    ensures PolygonBox(vs).minBound.y >= bottom
  {
    if vs != [] {
      BoxAbove(vs[..|vs| - 1], bottom);
    }
  }

  lemma PolygonCircleBox(vs: Vertices, p: Vec2, c: Circle, q: Vec2) returns (x: Vec2)
    requires PolygonCircleIntersect(MoveVertices(vs, p), c.Move(q))
    ensures BoundsOf(PolygonShape(vs), p).Contains(x) && BoundsOf(CircleShape(c), q).Contains(x)
  {
    PolygonCircleMeansBoundary(MoveVertices(vs, p), c.Move(q));
    x :| OnBoundary(MoveVertices(vs, p), x) && c.Move(q).Contains(x);
    BoundaryInBox(MoveVertices(vs, p), BoundsOf(PolygonShape(vs), p), x);
    DiskInBox(c.Move(q), x);
  }
}
