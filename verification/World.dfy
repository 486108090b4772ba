/** The world step: bounds, tree, and the traversal that resolves contacts and raises events. */
module Worlds {
  import opened Geometry
  import opened QuadTrees
  import opened BroadPhase
  import opened Contacts
  import opened Triggers

  datatype BodyRef = BodyRef(index: nat, genIndex: nat)

  datatype Collider = Collider(shape: Shape, bodyRef: BodyRef, bodyPosition: Vec2, restitution: real,
                               isTrigger: bool, isAttached: bool)

  /** What a traversal reads and never changes. */
  datatype Scene = Scene(len: Vec2 -> real, colliders: seq<Collider>, listening: bool)

  /** What a traversal changes. */
  datatype State = State(bodies: seq<Body>, triggers: TriggerState)

  /** Every attached collider refers to a body with a positive mass. */
  predicate Attached(cs: seq<Collider>, bodies: seq<Body>) {
    forall k :: 0 <= k < |cs| && cs[k].isAttached ==>
      cs[k].bodyRef.index < |bodies| && bodies[cs[k].bodyRef.index].mass > 0.0
  }

  /** `n` counters are enough for the attached colliders: events concern no others. */
  predicate HasCounters(cs: seq<Collider>, n: nat) {
    forall k :: 0 <= k < |cs| && cs[k].isAttached ==> k < n
  }

  predicate KnownCollider(cs: seq<Collider>, c: ColliderRefAabb) {
    c.colRef.index < |cs| && cs[c.colRef.index].isAttached
  }

  predicate KnownPair(cs: seq<Collider>, v: Pair) { KnownCollider(cs, v.0) && KnownCollider(cs, v.1) }

  function Placed(c: Collider, bodies: seq<Body>): Shape
    requires c.bodyRef.index < |bodies|
  {
    MoveShape(c.shape, bodies[c.bodyRef.index].position)
  }

  ghost predicate CollidersOverlap(cs: seq<Collider>, bodies: seq<Body>, i: nat, j: nat)
    requires Attached(cs, bodies) && i < |cs| && j < |cs| && cs[i].isAttached && cs[j].isAttached
  {
    Overlap(Placed(cs[i], bodies), Placed(cs[j], bodies))
  }

  function RefPair(v: Pair): ColliderRefPair { ColliderRefPair(v.0.colRef, v.1.colRef) }

  /** One visited pair: a physical contact, or a trigger if either collider is one and somebody listens. */
  ghost function VisitPair(sc: Scene, st: State, v: Pair): (r: State)
    requires Attached(sc.colliders, st.bodies) && KnownPair(sc.colliders, v)
    ensures SameBodyKinds(st.bodies, r.bodies) && Attached(sc.colliders, r.bodies)
  {
    var i, j := v.0.colRef.index, v.1.colRef.index;
    var c1, c2 := sc.colliders[i], sc.colliders[j];
    var overlap := CollidersOverlap(sc.colliders, st.bodies, i, j);
    if !c2.isTrigger && !c1.isTrigger then
      var events :=
        if !sc.listening then st.triggers.events
        else st.triggers.events + [if overlap then CollisionEnter(RefPair(v)) else CollisionExit(RefPair(v))];
      var bodies :=
        if overlap then
          Resolved(sc.len, st.bodies, c1.bodyRef.index, c1.shape, c1.restitution,
                   c2.bodyRef.index, c2.shape, c2.restitution)
        else st.bodies;
      State(bodies, st.triggers.(events := events))
    else if !sc.listening then st
    else st.(triggers := Visit(st.triggers, RefPair(v), overlap))
  }

  ghost function VisitAll(sc: Scene, st: State, vs: seq<Pair>): (r: State)
    requires Attached(sc.colliders, st.bodies) && forall v :: v in vs ==> KnownPair(sc.colliders, v)
    ensures SameBodyKinds(st.bodies, r.bodies) && Attached(sc.colliders, r.bodies)
  {
    if vs == [] then st
    else VisitPair(sc, VisitAll(sc, st, vs[..|vs| - 1]), vs[|vs| - 1])
  }

  lemma VisitAllAppend(sc: Scene, st: State, vs: seq<Pair>, v: Pair)
    requires Attached(sc.colliders, st.bodies) && (forall w :: w in vs ==> KnownPair(sc.colliders, w))
    requires KnownPair(sc.colliders, v)
    ensures forall w :: w in vs + [v] ==> KnownPair(sc.colliders, w)
    ensures VisitAll(sc, st, vs + [v]) == VisitPair(sc, VisitAll(sc, st, vs), v)
  {
    assert (vs + [v])[..|vs|] == vs;
  }

  lemma {:induction false} VisitAllConcat(sc: Scene, st: State, vs: seq<Pair>, ws: seq<Pair>)
    requires Attached(sc.colliders, st.bodies)
    requires (forall w :: w in vs ==> KnownPair(sc.colliders, w)) &&
        (forall w :: w in ws ==> KnownPair(sc.colliders, w))
    ensures forall w :: w in vs + ws ==> KnownPair(sc.colliders, w)
    ensures VisitAll(sc, st, vs + ws) == VisitAll(sc, VisitAll(sc, st, vs), ws)
  {
    hide VisitPair, KnownPair, Attached, SameBodyKinds;
    if ws == [] {
      assert vs + ws == vs;
    } else {
      var n := |ws| - 1;
      assert forall w :: w in ws[..n] ==> w in ws;
      VisitAllConcat(sc, st, vs, ws[..n]);
      assert (vs + ws)[..|vs + ws| - 1] == vs + ws[..n];
      assert (vs + ws)[|vs + ws| - 1] == ws[n];
    }
  }

  /** Visiting `vs` in order leads from `st` to `st'`. */
  ghost predicate Reaches(sc: Scene, st: State, vs: seq<Pair>, st': State) {
    && Attached(sc.colliders, st.bodies)
    && (forall v :: v in vs ==> KnownPair(sc.colliders, v))
    && st' == VisitAll(sc, st, vs)
  }

  lemma ReachesOneMore(sc: Scene, st: State, vs: seq<Pair>, v: Pair, st': State)
    requires Reaches(sc, st, vs, st') && KnownPair(sc.colliders, v)
    ensures Attached(sc.colliders, st'.bodies) && Reaches(sc, st, vs + [v], VisitPair(sc, st', v))
  {
    hide VisitPair, KnownPair, Attached, SameBodyKinds;
    VisitAllAppend(sc, st, vs, v);
  }

  lemma ReachesThen(sc: Scene, st: State, vs: seq<Pair>, st': State, ws: seq<Pair>, st'': State)
    requires Reaches(sc, st, vs, st') && Reaches(sc, st', ws, st'')
    ensures Reaches(sc, st, vs + ws, st'')
  {
    hide VisitAll, KnownPair, Attached, SameBodyKinds;
    VisitAllConcat(sc, st, vs, ws);
  }

  // ---------------------------------------------------------------- setting up the tree

  /** The collider with the current position of its body. */
  function Located(c: Collider, bodies: seq<Body>): Collider {
    if c.isAttached && c.bodyRef.index < |bodies| then c.(bodyPosition := bodies[c.bodyRef.index].position) else c
  }

  function BoxOf(c: Collider): Rectangle { BoundsOf(c.shape, c.bodyPosition) }

  /** The running bounds over the attached colliders. */
  function RootBox(cs: seq<Collider>): (r: Rectangle)
    ensures forall k :: 0 <= k < |cs| && cs[k].isAttached ==> Inside(BoxOf(cs[k]), r)
  {
    if cs == [] then SEED
    else
      var rest, c := RootBox(cs[..|cs| - 1]), cs[|cs| - 1];
      if c.isAttached then Grow(rest, BoxOf(c).minBound, BoxOf(c).maxBound) else rest
  }

  /** The root is the smallest box that holds the seeds of the search and the boxes of the attached colliders. */
  lemma {:induction false} RootTight(cs: seq<Collider>, box: Rectangle)
    requires Inside(SEED, box) && forall k :: 0 <= k < |cs| && cs[k].isAttached ==> Inside(BoxOf(cs[k]), box)
    ensures Inside(RootBox(cs), box)
  {
    hide BoxOf;
    if cs != [] {
      RootTight(cs[..|cs| - 1], box);
    }
  }

  function EntryOf(cs: seq<Collider>, gens: seq<nat>, k: nat): ColliderRefAabb
    requires k < |cs| == |gens|
  {
    ColliderRefAabb(BoxOf(cs[k]), ColliderRef(k, gens[k]))
  }

  /** The entries of the first `k` colliders, in index order. */
  function Entries(cs: seq<Collider>, gens: seq<nat>, k: nat): seq<ColliderRefAabb>
    requires k <= |cs| == |gens|
  {
    if k == 0 then []
    else if cs[k - 1].isAttached then Entries(cs, gens, k - 1) + [EntryOf(cs, gens, k - 1)]
    else Entries(cs, gens, k - 1)
  }

  lemma {:induction false} EntriesAre(cs: seq<Collider>, gens: seq<nat>, k: nat, x: ColliderRefAabb)
    requires k <= |cs| == |gens|
    ensures x in Entries(cs, gens, k) <==>
            x.colRef.index < k && cs[x.colRef.index].isAttached && x == EntryOf(cs, gens, x.colRef.index)
  {
    hide BoxOf;
    if k > 0 {
      EntriesAre(cs, gens, k - 1, x);
    }
  }

  /** Entries stand in the order of their colliders. */
  lemma {:induction false} EntriesInOrder(cs: seq<Collider>, gens: seq<nat>, k: nat, x: ColliderRefAabb,
      y: ColliderRefAabb)
    requires k <= |cs| == |gens|
    ensures InOrder(Entries(cs, gens, k), x, y) <==>
            x in Entries(cs, gens, k) && y in Entries(cs, gens, k) && x.colRef.index < y.colRef.index
  {
    hide BoxOf, InOrder;
    if k == 0 {
      NoOrder(x, y);
    } else {
      EntriesInOrder(cs, gens, k - 1, x, y);
      EntriesAre(cs, gens, k - 1, x);
      EntriesAre(cs, gens, k - 1, y);
      InOrderAppend(Entries(cs, gens, k - 1), EntryOf(cs, gens, k - 1), x, y);
    }
  }

  lemma NoOrder(x: ColliderRefAabb, y: ColliderRefAabb)
    ensures !InOrder([], x, y)
  {}

  class World {
    const bodies: array<Body>
    const length: Vec2 -> real
    const quadTree: QuadTree
    var bodyGenIndices: seq<nat>
    var colliders: seq<Collider>
    var colliderGenIndices: seq<nat>
    var colRefPairs: set<ColliderRefPair>
    var contactListener: TriggerSample?

    constructor (bodies: array<Body>, bodyGenIndices: seq<nat>, colliders: seq<Collider>, colliderGenIndices: seq<nat>,
                 length: Vec2 -> real, listener: TriggerSample?)
      ensures this.bodies == bodies && this.length == length && this.contactListener == listener
      ensures this.bodyGenIndices == bodyGenIndices && this.colliders == colliders
      ensures this.colliderGenIndices == colliderGenIndices && colRefPairs == {}
      ensures fresh(quadTree) && quadTree.Valid()
    {
      this.bodies, this.length, this.contactListener := bodies, length, listener;
      this.bodyGenIndices, this.colliders, this.colliderGenIndices := bodyGenIndices, colliders, colliderGenIndices;
      this.colRefPairs := {};
      this.quadTree := new QuadTree();
    }

    /** References resolve: indices are in range and generations match, so no lookup throws. */
    ghost predicate Valid()
      reads this, bodies, contactListener
    {
      && |bodyGenIndices| == bodies.Length && |colliderGenIndices| == |colliders|
      && Attached(colliders, bodies[..])
      && (forall k :: 0 <= k < |colliders| && colliders[k].isAttached ==>
           bodyGenIndices[colliders[k].bodyRef.index] == colliders[k].bodyRef.genIndex)
      && (contactListener != null ==>
           contactListener.Valid() && HasCounters(colliders, |contactListener.triggerNbrPerCollider|))
    }

    ghost function Now(): State
      reads this`colRefPairs, this`contactListener, bodies, contactListener
    {
      State(bodies[..], TriggerState(colRefPairs, if contactListener == null then [] else contactListener.events))
    }

    ghost function CurrentScene(): Scene
      reads this`colliders, this`contactListener
    {
      Scene(length, colliders, contactListener != null)
    }

    /** A reference whose collider exists, is attached, and has the right generation. */
    ghost predicate Resolves(ref: ColliderRef)
      reads this`colliders, this`colliderGenIndices
    {
      && |colliderGenIndices| == |colliders|
      && ref.index < |colliders| && colliders[ref.index].isAttached
      && colliderGenIndices[ref.index] == ref.genIndex
    }

    method SetUpQuadTree()
      requires Valid() && quadTree.Valid()
      modifies this`colliders, quadTree
      ensures Valid() && |colliders| == |old(colliders)|
      ensures forall k :: 0 <= k < |colliders| ==> colliders[k] == Located(old(colliders)[k], bodies[..])
      ensures quadTree.Built(RootBox(colliders), Entries(colliders, colliderGenIndices, |colliders|))
    {
      hide QuadTree.Valid;
      var box := LocateColliders();
      quadTree.SetUpRoot(box);
      FillTree(box);
    }

    /** The first loop: copies the body positions into the colliders and grows the bounds. */
    method LocateColliders() returns (box: Rectangle)
      requires Valid()
      modifies this`colliders
      ensures Valid() && |colliders| == |old(colliders)| && box == RootBox(colliders)
      ensures forall k :: 0 <= k < |colliders| ==> colliders[k] == Located(old(colliders)[k], bodies[..])
    {
      hide BoundsOf, Grow, CountAll, InRange;
      box := SEED;
      for k := 0 to |colliders|
        invariant Valid() && |colliders| == |old(colliders)|
        invariant forall j :: 0 <= j < k ==> colliders[j] == Located(old(colliders)[j], bodies[..])
        invariant forall j :: k <= j < |colliders| ==> colliders[j] == old(colliders)[j]
        invariant box == RootBox(colliders[..k])
      {
        var c := colliders[k];
        ghost var before := colliders[..k];
        if c.isAttached {
          c := c.(bodyPosition := bodies[c.bodyRef.index].position);
          colliders := colliders[k := c];
          var bounds := GetBounds(c.shape, c.bodyPosition);
          box := Grow(box, bounds.minBound, bounds.maxBound);
        }
        assert colliders[..k + 1] == before + [c] && (before + [c])[..k] == before;
      }
      assert colliders[..|colliders|] == colliders;
    }

    /** The second loop: inserts the bounds of the attached colliders. */
    method FillTree(ghost box: Rectangle)
      requires quadTree.Built(box, []) && |colliders| == |colliderGenIndices|
      modifies quadTree
      ensures quadTree.Built(box, Entries(colliders, colliderGenIndices, |colliders|))
    {
      hide BoundsOf, QuadTree.Built;
      for i := 0 to |colliders|
        invariant quadTree.Built(box, Entries(colliders, colliderGenIndices, i))
      {
        if colliders[i].isAttached {
          var bounds := GetBounds(colliders[i].shape, colliders[i].bodyPosition);
          quadTree.InsertAtRoot(ColliderRefAabb(bounds, ColliderRef(i, colliderGenIndices[i])),
                                box, Entries(colliders, colliderGenIndices, i));
        }
      }
    }

    /** The body of the inner loop over a leaf. */
    method VisitColliders(x: ColliderRefAabb, y: ColliderRefAabb)
      requires Valid() && Resolves(x.colRef) && Resolves(y.colRef)
      modifies this`colRefPairs, bodies, contactListener
      ensures Valid() && Now() == VisitPair(CurrentScene(), old(Now()), (x, y))
    {
      var c1, c2 := colliders[x.colRef.index], colliders[y.colRef.index];
      var overlap := OverlapTest(MoveShape(c1.shape, bodies[c1.bodyRef.index].position),
                                 MoveShape(c2.shape, bodies[c2.bodyRef.index].position));
      hide MoveShape, Overlap, TriggerSample.Valid, CountAll;
      assert overlap == CollidersOverlap(colliders, bodies[..], x.colRef.index, y.colRef.index);
      if !c2.isTrigger && !c1.isTrigger {
        Collide(x, y, overlap);
      } else if contactListener != null {
        Trigger(x, y, overlap);
      }
    }

    method Collide(x: ColliderRefAabb, y: ColliderRefAabb, overlap: bool)
      requires Valid() && Resolves(x.colRef) && Resolves(y.colRef)
      requires overlap == CollidersOverlap(colliders, bodies[..], x.colRef.index, y.colRef.index)
      requires !colliders[x.colRef.index].isTrigger && !colliders[y.colRef.index].isTrigger
      modifies bodies, contactListener
      ensures Valid() && Now() == VisitPair(CurrentScene(), old(Now()), (x, y))
    {
      hide MoveShape, Overlap, CountAll, CollidersOverlap;
      var c1, c2 := colliders[x.colRef.index], colliders[y.colRef.index];
      var colPair := ColliderRefPair(x.colRef, y.colRef);
      if overlap {
        var contact := new Contact(bodies, c1.bodyRef.index, c1.shape, c1.restitution,
                                   c2.bodyRef.index, c2.shape, c2.restitution);
        contact.Resolve(length);
      }
      if contactListener != null {
        contactListener.OnCollision(if overlap then CollisionEnter(colPair) else CollisionExit(colPair));
      }
    }

    method Trigger(x: ColliderRefAabb, y: ColliderRefAabb, overlap: bool)
      requires Valid() && Resolves(x.colRef) && Resolves(y.colRef) && contactListener != null
      requires overlap == CollidersOverlap(colliders, bodies[..], x.colRef.index, y.colRef.index)
      requires colliders[x.colRef.index].isTrigger || colliders[y.colRef.index].isTrigger
      modifies this`colRefPairs, contactListener
      ensures Valid() && Now() == VisitPair(CurrentScene(), old(Now()), (x, y))
    {
      hide MoveShape, Overlap, CountAll, CollidersOverlap, Find, Erase;
      var colPair := ColliderRefPair(x.colRef, y.colRef);
      if Find(colRefPairs, colPair) {
        if !overlap {
          contactListener.OnTriggerExit(x.colRef, y.colRef);
          colRefPairs := Erase(colRefPairs, colPair);
        }
      } else if overlap {
        contactListener.OnTriggerEnter(x.colRef, y.colRef);
        colRefPairs := colRefPairs + {colPair};
      }
    }

    /** The traversal below node `i`, whose subtree is the batch tree of `s`. */
    method UpdateQuadTreeCollisions(i: nat, ghost s: seq<ColliderRefAabb>)
      requires Valid() && quadTree.Subtree(i, s) && forall x :: x in s ==> Resolves(x.colRef)
      modifies this`colRefPairs, bodies, contactListener
      ensures Valid()
      ensures Reaches(CurrentScene(), old(Now()), Visits(quadTree.nodes[i].bounds, quadTree.nodes[i].depth, s), Now())
      decreases MAX_DEPTH - quadTree.nodes[i].depth
    {
      hide Valid, Now, CurrentScene, Resolves, Reaches, QuadTree.Subtree, Hits, Quadrant, Visits, ChildVisits,
          LeafPairs;
      var node := quadTree.nodes[i];
      ghost var b, depth := node.bounds, node.depth;
      if node.children == [] {
        quadTree.LeafNode(i, s);
        VisitLeaf(node.cols);
        NodeVisits(b, depth, s);
      } else {
        quadTree.InnerNode(i, s);
        NodeVisits(b, depth, s);
        NothingYet();
        for k := 0 to 4
          invariant Valid() && Reaches(CurrentScene(), old(Now()), ChildVisits(b, depth, s, k), Now())
        {
          ghost var q, before := Quadrant(b, k), Now();
          HitsResolve(q, s);
          quadTree.ChildNode(i, s, k);
          UpdateQuadTreeCollisions(node.children[k], Hits(s, q));
          ReachesThen(CurrentScene(), old(Now()), ChildVisits(b, depth, s, k), before,
              Visits(q, depth + 1, Hits(s, q)), Now());
          ChildVisitsStep(b, depth, s, k);
        }
      }
    }

    lemma NothingYet()
      requires Valid()
      ensures Reaches(CurrentScene(), Now(), [], Now())
    {}

    lemma HitsResolve(q: Rectangle, s: seq<ColliderRefAabb>)
      requires forall x :: x in s ==> Resolves(x.colRef)
      ensures forall x :: x in Hits(s, q) ==> Resolves(x.colRef)
    {
      forall x | x in Hits(s, q) ensures Resolves(x.colRef) {
        HitsOf(s, q, x);
      }
    }

    /** The double loop over the entries of a leaf. */
    method VisitLeaf(cols: seq<ColliderRefAabb>)
      requires Valid() && forall x :: x in cols ==> Resolves(x.colRef)
      modifies this`colRefPairs, bodies, contactListener
      ensures Valid() && Reaches(CurrentScene(), old(Now()), LeafPairs(cols, |cols|), Now())
    {
      hide Valid, Now, CurrentScene, Resolves, Reaches, RowPairs;
      NothingYet();
      if cols == [] {
        return;
      }
      var i := 0;
      while i < |cols| - 1
        invariant 0 <= i <= |cols| - 1 && Valid()
        invariant Reaches(CurrentScene(), old(Now()), LeafPairs(cols, i), Now())
      {
        ghost var before := Now();
        VisitRow(cols, i);
        ReachesThen(CurrentScene(), old(Now()), LeafPairs(cols, i), before, RowPairs(cols, i, |cols|), Now());
        i := i + 1;
      }
      LastRow(cols);
      assert LeafPairs(cols, |cols|) == LeafPairs(cols, i) + RowPairs(cols, i, |cols|) == LeafPairs(cols, i);
    }

    method VisitRow(cols: seq<ColliderRefAabb>, i: nat)
      requires Valid() && i < |cols| && forall x :: x in cols ==> Resolves(x.colRef)
      modifies this`colRefPairs, bodies, contactListener
      ensures Valid() && Reaches(CurrentScene(), old(Now()), RowPairs(cols, i, |cols|), Now())
    {
      hide VisitPair, KnownPair, Valid, Attached, Now, CurrentScene, Resolves, Reaches, RowPairs;
      NothingYet();
      RowSteps(cols, i, i + 1);
      var j := i + 1;
      while j < |cols|
        invariant i < j <= |cols| && Valid()
        invariant Reaches(CurrentScene(), old(Now()), RowPairs(cols, i, j), Now())
      {
        assert cols[i] in cols && cols[j] in cols;
        ResolvingPair(cols[i], cols[j]);
        RowSteps(cols, i, j + 1);
        ReachesOneMore(CurrentScene(), old(Now()), RowPairs(cols, i, j), (cols[i], cols[j]), Now());
        VisitColliders(cols[i], cols[j]);
        j := j + 1;
      }
    }

    lemma ResolvingPair(x: ColliderRefAabb, y: ColliderRefAabb)
      requires Valid() && Resolves(x.colRef) && Resolves(y.colRef)
      ensures KnownPair(CurrentScene().colliders, (x, y))
    {}

    /** `World::Update` after the bodies have been moved: the tree is set up and traversed from the root. */
    method UpdateCollisions()
      requires Valid() && quadTree.Valid()
      modifies this`colliders, this`colRefPairs, bodies, contactListener, quadTree
      ensures Valid() && |colliders| == |old(colliders)|
      ensures forall k :: 0 <= k < |colliders| ==> colliders[k] == Located(old(colliders)[k], old(bodies[..]))
      ensures |colliders| == |colliderGenIndices|
      ensures Reaches(CurrentScene(), old(Now()), StepVisits(colliders, colliderGenIndices), Now())
    {
      hide Now, Resolves, Reaches, Located, Attached, CountAll, Visits, RootBox, Entries,
        QuadTree.Built, QuadTree.Subtree, QuadTree.Valid;
      SetUpQuadTree();
      ghost var s := Entries(colliders, colliderGenIndices, |colliders|);
      EntriesResolve();
      quadTree.RootNode(RootBox(colliders), s);
      UpdateQuadTreeCollisions(0, s);
    }

    lemma EntriesResolve()
      requires |colliders| == |colliderGenIndices|
      ensures forall x :: x in Entries(colliders, colliderGenIndices, |colliders|) ==> Resolves(x.colRef)
    {
      forall x | x in Entries(colliders, colliderGenIndices, |colliders|) ensures Resolves(x.colRef) {
        EntriesAre(colliders, colliderGenIndices, |colliders|, x);
      }
    }
  }

  /** The pairs one step visits. */
  function StepVisits(cs: seq<Collider>, gens: seq<nat>): seq<Pair>
    requires |cs| == |gens|
  {
    Visits(RootBox(cs), 0, Entries(cs, gens, |cs|))
  }

  lemma RowSteps(s: seq<ColliderRefAabb>, i: nat, j: nat)
    requires i < j <= |s|
    ensures RowPairs(s, i, i + 1) == []
    ensures j > i + 1 ==> RowPairs(s, i, j) == RowPairs(s, i, j - 1) + [(s[i], s[j - 1])]
  {}

  lemma LastRow(s: seq<ColliderRefAabb>)
    requires s != []
    ensures RowPairs(s, |s| - 1, |s|) == []
  {}

  lemma ChildVisitsStep(b: Rectangle, depth: nat, s: seq<ColliderRefAabb>, k: nat)
    requires depth < MAX_DEPTH && k < 4
    ensures ChildVisits(b, depth, s, k + 1) ==
            ChildVisits(b, depth, s, k) + Visits(Quadrant(b, k), depth + 1, Hits(s, Quadrant(b, k)))
  {
    hide Quadrant, Hits, Visits;
  }

  lemma NodeVisits(b: Rectangle, depth: nat, s: seq<ColliderRefAabb>)
    ensures if Splits(depth, s) then ChildVisits(b, depth, s, 0) == [] &&
        Visits(b, depth, s) == ChildVisits(b, depth, s, 4)
            else Visits(b, depth, s) == LeafPairs(s, |s|)
  {}
}
