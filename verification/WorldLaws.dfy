/** What a whole world step guarantees, whatever tree it walked and however often it met a pair. */
module WorldLaws {
  import opened Geometry
  import opened NarrowPhase
  import opened ConvexPolygons
  import opened QuadTrees
  import opened BroadPhase
  import opened Contacts
  import opened Conservation
  import opened Triggers
  import opened Worlds

  // ------------------------------------------------------------------- conservation

  predicate Physical(c: Collider) { c.isAttached && !c.isTrigger }

  predicate RestitutionsInRange(cs: seq<Collider>) {
    forall k :: 0 <= k < |cs| && Physical(cs[k]) ==> 0.0 <= cs[k].restitution <= 1.0
  }

  /** The bodies that physical colliders refer to are dynamic. Nothing is asked of the other slots. */
  predicate PhysicalDynamic(cs: seq<Collider>, bodies: seq<Body>) {
    forall k :: 0 <= k < |cs| && Physical(cs[k]) ==>
      cs[k].bodyRef.index < |bodies| && bodies[cs[k].bodyRef.index].bodyType == DYNAMIC
  }

  lemma VisitConserves(sc: Scene, st: State, v: Pair)
    requires Attached(sc.colliders, st.bodies) && KnownPair(sc.colliders, v)
    requires IsLength(sc.len) && PhysicalDynamic(sc.colliders, st.bodies) && RestitutionsInRange(sc.colliders)
    ensures var r := VisitPair(sc, st, v);
      Momentum(r.bodies) == Momentum(st.bodies) && TwiceEnergy(r.bodies) <= TwiceEnergy(st.bodies)
  {
    hide Resolved, IsLength, Momentum, TwiceEnergy, CollidersOverlap, Visit;
    var c1, c2 := sc.colliders[v.0.colRef.index], sc.colliders[v.1.colRef.index];
    if Physical(c1) && Physical(c2) {
      ResolvedConserves(sc.len, st.bodies, c1.bodyRef.index, c1.shape, c1.restitution,
                        c2.bodyRef.index, c2.shape, c2.restitution);
    }
  }

  /** A traversal conserves momentum and never adds kinetic energy, however many contacts it resolves
      and however often it meets the same pair. */
  lemma {:induction false} StepConserves(sc: Scene, st: State, vs: seq<Pair>, st': State)
    requires Reaches(sc, st, vs, st')
    requires IsLength(sc.len) && PhysicalDynamic(sc.colliders, st.bodies) && RestitutionsInRange(sc.colliders)
    ensures PhysicalDynamic(sc.colliders, st'.bodies) && Momentum(st'.bodies) == Momentum(st.bodies)
    ensures TwiceEnergy(st'.bodies) <= TwiceEnergy(st.bodies)
  {
    hide VisitPair, KnownPair, Attached, IsLength, Momentum, TwiceEnergy, PhysicalDynamic, RestitutionsInRange,
        SameBodyKinds;
    if vs != [] {
      var n := |vs| - 1;
      var mid := VisitAll(sc, st, vs[..n]);
      StepConserves(sc, st, vs[..n], mid);
      VisitConserves(sc, mid, vs[n]);
      StillDynamic(sc.colliders, mid.bodies, VisitPair(sc, mid, vs[n]).bodies);
    }
  }

  lemma StillDynamic(cs: seq<Collider>, bodies: seq<Body>, bodies': seq<Body>)
    requires PhysicalDynamic(cs, bodies) && SameBodyKinds(bodies, bodies')
    ensures PhysicalDynamic(cs, bodies')
  {}

  // --------------------------------------------------------------- which pairs are visited

  /** The positions kept in the attached colliders are those of their bodies, as the set-up leaves them. */
  ghost predicate UpToDate(cs: seq<Collider>, bodies: seq<Body>) {
    && Attached(cs, bodies)
    && forall k :: 0 <= k < |cs| && cs[k].isAttached ==> cs[k].bodyPosition == bodies[cs[k].bodyRef.index].position
  }

  /** Setting up the tree brings the positions up to date. */
  lemma LocatedUpToDate(cs: seq<Collider>, cs': seq<Collider>, bodies: seq<Body>)
    requires Attached(cs, bodies) && |cs'| == |cs|
    requires forall k :: 0 <= k < |cs| ==> cs'[k] == Located(cs[k], bodies)
    ensures UpToDate(cs', bodies)
  {}

  function RefOf(gens: seq<nat>, k: nat): ColliderRef
    requires k < |gens|
  {
    ColliderRef(k, gens[k])
  }

  predicate AttachedPair(cs: seq<Collider>, i: nat, j: nat) {
    i < j < |cs| && cs[i].isAttached && cs[j].isAttached
  }

  function EntryPair(cs: seq<Collider>, gens: seq<nat>, i: nat, j: nat): Pair
    requires |cs| == |gens| && i < |cs| && j < |cs|
  {
    (EntryOf(cs, gens, i), EntryOf(cs, gens, j))
  }

  /** Only pairs of distinct attached colliders are visited, the lower index first. */
  lemma StepVisitsSound(cs: seq<Collider>, gens: seq<nat>, v: Pair)
    requires |cs| == |gens| && v in StepVisits(cs, gens)
    ensures var i, j := v.0.colRef.index, v.1.colRef.index; AttachedPair(cs, i, j) && v == EntryPair(cs, gens, i, j)
  {
    hide Visits, InOrder, RootBox, BoxOf, Entries;
    var s := Entries(cs, gens, |cs|);
    VisitsSound(RootBox(cs), 0, s, v);
    EntriesInOrder(cs, gens, |cs|, v.0, v.1);
    EntriesAre(cs, gens, |cs|, v.0);
    EntriesAre(cs, gens, |cs|, v.1);
  }

  /** Attached colliders whose boxes share a point are visited together: the boxes lie inside the root,
      and the quadrants cover it. */
  lemma SharingBoxesVisited(cs: seq<Collider>, gens: seq<nat>, i: nat, j: nat, x: Vec2)
    requires |cs| == |gens| && AttachedPair(cs, i, j)
    requires BoxOf(cs[i]).Contains(x) && BoxOf(cs[j]).Contains(x)
    ensures EntryPair(cs, gens, i, j) in StepVisits(cs, gens)
  {
    var s, a, b := Entries(cs, gens, |cs|), EntryOf(cs, gens, i), EntryOf(cs, gens, j);
    assert RootBox(cs).Contains(x) by {
      InsideContains(BoxOf(cs[i]), RootBox(cs), x);
    }
    hide Visits, InOrder, RootBox, BoxOf, Entries;
    EntriesAre(cs, gens, |cs|, a);
    EntriesAre(cs, gens, |cs|, b);
    EntriesInOrder(cs, gens, |cs|, a, b);
    SharedPointVisited(RootBox(cs), 0, s, a, b, x);
  }

  lemma InsideContains(inner: Rectangle, outer: Rectangle, x: Vec2)
    requires Inside(inner, outer) && inner.Contains(x)
    ensures outer.Contains(x)
  {}

  /** No rectangle has crossed bounds, and the report of separating axes can be trusted. */
  ghost predicate Faithful(cs: seq<Collider>, bodies: seq<Body>, i: nat, j: nat)
    requires Attached(cs, bodies) && AttachedPair(cs, i, j)
  {
    var s, t := Placed(cs[i], bodies), Placed(cs[j], bodies);
    Proper(s) && Proper(t) && Trusted(s, t)
  }

  /** Broad-phase completeness: attached colliders whose placed shapes share a point are visited together, and
      so are those that `Overlap` reports, unless the report has nothing to do with the boxes. */
  lemma BroadPhaseComplete(cs: seq<Collider>, gens: seq<nat>, bodies: seq<Body>, i: nat, j: nat)
    requires |cs| == |gens| && UpToDate(cs, bodies) && AttachedPair(cs, i, j)
    requires
      || SharePoint(Placed(cs[i], bodies), Placed(cs[j], bodies))
      || (CollidersOverlap(cs, bodies, i, j) && Faithful(cs, bodies, i, j))
    ensures EntryPair(cs, gens, i, j) in StepVisits(cs, gens)
  {
    hide StepVisits, SharePoint, Overlap, MoveShape, BoundsOf, Proper, Trusted;
    var x := BoxesShare(cs[i].shape, cs[i].bodyPosition, cs[j].shape, cs[j].bodyPosition);
    SharingBoxesVisited(cs, gens, i, j, x);
  }

  /** Exactly which pairs a step visits: attached colliders, the lower index first, whose boxes both meet all the
      rectangles on the way to some leaf. */
  lemma StepVisitsIff(cs: seq<Collider>, gens: seq<nat>, i: nat, j: nat)
    requires |cs| == |gens| && AttachedPair(cs, i, j)
    ensures EntryPair(cs, gens, i, j) in StepVisits(cs, gens) <==> Presented(cs, gens, i, j)
  {
    hide Visits, InOrder, RootBox, BoxOf, Entries, MeetInLeaf;
    var s, a, b := Entries(cs, gens, |cs|), EntryOf(cs, gens, i), EntryOf(cs, gens, j);
    EntriesAre(cs, gens, |cs|, a);
    EntriesAre(cs, gens, |cs|, b);
    EntriesInOrder(cs, gens, |cs|, a, b);
    VisitedIff(RootBox(cs), 0, s, a, b);
  }

  ghost predicate Presented(cs: seq<Collider>, gens: seq<nat>, i: nat, j: nat)
    requires |cs| == |gens| && i < |cs| && j < |cs|
  {
    MeetInLeaf(RootBox(cs), 0, Entries(cs, gens, |cs|), BoxOf(cs[i]), BoxOf(cs[j]))
  }

  /** No leaf holds a collider twice: its entries have increasing indices. */
  lemma NoRepeatInLeaf(cs: seq<Collider>, gens: seq<nat>, leaf: seq<ColliderRefAabb>, m: nat, n: nat)
    requires |cs| == |gens| && leaf in Leaves(RootBox(cs), 0, Entries(cs, gens, |cs|)) && m < n < |leaf|
    ensures leaf[m].colRef.index < leaf[n].colRef.index
  {
    assert InOrder(leaf, leaf[m], leaf[n]);
    hide InOrder, RootBox, Entries, Leaves;
    LeavesInOrder(RootBox(cs), 0, Entries(cs, gens, |cs|), leaf, leaf[m], leaf[n]);
    EntriesInOrder(cs, gens, |cs|, leaf[m], leaf[n]);
  }

  /** What a step visits: the leaves one after the other, and in each leaf every pair of its colliders once, the lower
      index first. */
  lemma StepByLeaves(cs: seq<Collider>, gens: seq<nat>, leaf: seq<ColliderRefAabb>, x: ColliderRefAabb,
      y: ColliderRefAabb)
    requires |cs| == |gens| && leaf in Leaves(RootBox(cs), 0, Entries(cs, gens, |cs|))
    ensures StepVisits(cs, gens) == PairsByLeaf(Leaves(RootBox(cs), 0, Entries(cs, gens, |cs|)))
    ensures multiset(LeafPairs(leaf, |leaf|))[(x, y)] ==
            if x in leaf && y in leaf && x.colRef.index < y.colRef.index then 1 else 0
  {
    hide RootBox, Entries, Leaves, LeafPairs, Visits, PairsByLeaf, InOrder;
    forall m, n | 0 <= m < n < |leaf| ensures leaf[m].colRef.index < leaf[n].colRef.index {
      NoRepeatInLeaf(cs, gens, leaf, m, n);
    }
    VisitsByLeaf(RootBox(cs), 0, Entries(cs, gens, |cs|));
    LeafOnce(leaf, x, y);
    SortedInOrder(leaf, x, y);
  }

  lemma SortedInOrder(leaf: seq<ColliderRefAabb>, x: ColliderRefAabb, y: ColliderRefAabb)
    requires forall m, n :: 0 <= m < n < |leaf| ==> leaf[m].colRef.index < leaf[n].colRef.index
    ensures InOrder(leaf, x, y) <==> x in leaf && y in leaf && x.colRef.index < y.colRef.index
  {}

  /** As long as the root is a leaf, with up to 16 attached colliders, every two of them are met exactly once. */
  lemma SmallWorldOnce(cs: seq<Collider>, gens: seq<nat>, i: nat, j: nat)
    requires |cs| == |gens| && AttachedPair(cs, i, j) && |Entries(cs, gens, |cs|)| <= 16
    ensures multiset(StepVisits(cs, gens))[EntryPair(cs, gens, i, j)] == 1
  {
    hide RootBox, Entries, LeafPairs, PairsByLeaf, EntryOf;
    var s := Entries(cs, gens, |cs|);
    NodeVisits(RootBox(cs), 0, s);
    EntriesAre(cs, gens, |cs|, EntryOf(cs, gens, i));
    EntriesAre(cs, gens, |cs|, EntryOf(cs, gens, j));
    EntryIndex(cs, gens, i);
    EntryIndex(cs, gens, j);
    assert Leaves(RootBox(cs), 0, s) == [s];
    StepByLeaves(cs, gens, s, EntryOf(cs, gens, i), EntryOf(cs, gens, j));
  }

  lemma EntryIndex(cs: seq<Collider>, gens: seq<nat>, i: nat)
    requires i < |cs| == |gens|
    ensures EntryOf(cs, gens, i).colRef.index == i
  {}

  // ------------------------------------------------------- a step of triggers only

  /** Every attached collider is a trigger and somebody listens. */
  predicate TriggersOnly(sc: Scene) {
    sc.listening && forall k :: 0 <= k < |sc.colliders| && sc.colliders[k].isAttached ==> sc.colliders[k].isTrigger
  }

  /** The visited pairs all have the lower index first. */
  predicate LowerFirst(vs: seq<Pair>) {
    forall v :: v in vs ==> v.0.colRef.index < v.1.colRef.index
  }

  /** The event that reports a change of a pair's membership, if there is a change. */
  function Change(before: bool, after: bool, p: ColliderRefPair): seq<Event> {
    if before == after then [] else [if after then TriggerEnter(p) else TriggerExit(p)]
  }

  lemma TriggerVisited(sc: Scene, st: State, v: Pair, p: ColliderRefPair)
    requires Attached(sc.colliders, st.bodies) && KnownPair(sc.colliders, v) && TriggersOnly(sc)
    requires AttachedPair(sc.colliders, p.a.index, p.b.index) && v.0.colRef.index < v.1.colRef.index
    ensures var st' := VisitPair(sc, st, v);
      && st'.bodies == st.bodies
      && Find(st'.triggers.pairs, p) ==
         if RefPair(v) == p then CollidersOverlap(sc.colliders, st.bodies, p.a.index, p.b.index)
         else Find(st.triggers.pairs, p)
    ensures var st' := VisitPair(sc, st, v);
      EventsOf(st'.triggers.events, p) ==
      EventsOf(st.triggers.events, p) + Change(Find(st.triggers.pairs, p), Find(st'.triggers.pairs, p), p)
  {
    hide Attached, CollidersOverlap, Find, Erase, Resolved, EventsOf;
    var q, overlap := RefPair(v), CollidersOverlap(sc.colliders, st.bodies, v.0.colRef.index, v.1.colRef.index);
    FindAfter(st.triggers, q, overlap, p);
    if overlap != Find(st.triggers.pairs, q) {
      EventsOfAppend(st.triggers.events, if overlap then TriggerEnter(q) else TriggerExit(q), p);
    }
  }

  /** A traversal of triggers moves nothing, and decides exactly the pairs it visits. */
  lemma {:induction false} TriggersDecided(sc: Scene, st: State, vs: seq<Pair>, st': State, p: ColliderRefPair)
    requires Reaches(sc, st, vs, st') && TriggersOnly(sc) && LowerFirst(vs)
    requires AttachedPair(sc.colliders, p.a.index, p.b.index)
    ensures st'.bodies == st.bodies
    ensures Find(st'.triggers.pairs, p) ==
      if exists v :: v in vs && RefPair(v) == p then CollidersOverlap(sc.colliders, st.bodies, p.a.index, p.b.index)
      else Find(st.triggers.pairs, p)
    ensures EventsOf(st'.triggers.events, p) ==
      EventsOf(st.triggers.events, p) + Change(Find(st.triggers.pairs, p), Find(st'.triggers.pairs, p), p)
  {
    hide Attached, KnownPair, CollidersOverlap, SameBodyKinds, Find, VisitPair, TriggersOnly, EventsOf;
    if vs != [] {
      var n := |vs| - 1;
      var mid := VisitAll(sc, st, vs[..n]);
      TriggersDecided(sc, st, vs[..n], mid, p);
      TriggerVisited(sc, mid, vs[n], p);
      assert vs == vs[..n] + [vs[n]];
      if RefPair(vs[n]) != p && exists v :: v in vs && RefPair(v) == p {
        var v :| v in vs && RefPair(v) == p;
        assert v in vs[..n];
      }
    }
  }

  /** After a step of triggers a pair that was visited is in the set exactly when it overlaps, and any other pair
      is in the set exactly when it was before; one event is raised if that changed, and none otherwise. */
  lemma StepDecides(sc: Scene, gens: seq<nat>, st: State, st': State, i: nat, j: nat)
    requires |gens| == |sc.colliders| && UpToDate(sc.colliders, st.bodies) && TriggersOnly(sc)
    requires AttachedPair(sc.colliders, i, j) && Reaches(sc, st, StepVisits(sc.colliders, gens), st')
    ensures Find(st'.triggers.pairs, ColliderRefPair(RefOf(gens, i), RefOf(gens, j))) ==
      if EntryPair(sc.colliders, gens, i, j) in StepVisits(sc.colliders, gens)
      then CollidersOverlap(sc.colliders, st.bodies, i, j)
      else Find(st.triggers.pairs, ColliderRefPair(RefOf(gens, i), RefOf(gens, j)))
    ensures var p := ColliderRefPair(RefOf(gens, i), RefOf(gens, j));
      EventsOf(st'.triggers.events, p) ==
      EventsOf(st.triggers.events, p) + Change(Find(st.triggers.pairs, p), Find(st'.triggers.pairs, p), p)
  {
    hide EventsOf, Reaches, StepVisits, CollidersOverlap, Find, UpToDate, BoxOf;
    var vs := StepVisits(sc.colliders, gens);
    forall v | v in vs
      ensures AttachedPair(sc.colliders, v.0.colRef.index, v.1.colRef.index)
      ensures v == EntryPair(sc.colliders, gens, v.0.colRef.index, v.1.colRef.index)
    {
      StepVisitsSound(sc.colliders, gens, v);
    }
    TriggersDecided(sc, st, vs, st', ColliderRefPair(RefOf(gens, i), RefOf(gens, j)));
  }

  /** The set agrees with a check of all pairs, apart from stale entries: a pair stays in the set without
      overlapping exactly when it was in the set before and no leaf presents it now. */
  lemma StepAgreesUnlessStale(sc: Scene, gens: seq<nat>, st: State, st': State, i: nat, j: nat)
    requires |gens| == |sc.colliders| && UpToDate(sc.colliders, st.bodies) && TriggersOnly(sc)
    requires AttachedPair(sc.colliders, i, j) && Reaches(sc, st, StepVisits(sc.colliders, gens), st')
    requires Faithful(sc.colliders, st.bodies, i, j)
    ensures var p := ColliderRefPair(RefOf(gens, i), RefOf(gens, j));
      Find(st'.triggers.pairs, p) <==>
      || CollidersOverlap(sc.colliders, st.bodies, i, j)
      || (Find(st.triggers.pairs, p) && !Presented(sc.colliders, gens, i, j))
  {
    hide Reaches, StepVisits, CollidersOverlap, Find, Attached, BoxOf, Presented, Faithful;
    StepDecides(sc, gens, st, st', i, j);
    StepVisitsIff(sc.colliders, gens, i, j);
    if CollidersOverlap(sc.colliders, st.bodies, i, j) {
      BroadPhaseComplete(sc.colliders, gens, st.bodies, i, j);
    }
  }

  /** In terms of points: for circles, ordered rectangles and convex polygons, a polygon with a circle excepted,
      the set holds the pairs that share a point and the stale ones, unless two outlines lie on one line. */
  lemma StepFindsCommonPoints(sc: Scene, gens: seq<nat>, st: State, st': State, i: nat, j: nat)
    requires |gens| == |sc.colliders| && UpToDate(sc.colliders, st.bodies) && TriggersOnly(sc)
    requires AttachedPair(sc.colliders, i, j) && Reaches(sc, st, StepVisits(sc.colliders, gens), st')
    requires var s, t := Placed(sc.colliders[i], st.bodies), Placed(sc.colliders[j], st.bodies);
      && Regular(s) && Regular(t) && !PolygonAndCircle(s, t)
      && (AxisTest(s, t) ==> !OneLine(Outline(s), Outline(t)))
    ensures var p := ColliderRefPair(RefOf(gens, i), RefOf(gens, j));
      Find(st'.triggers.pairs, p) <==>
      || SharePoint(Placed(sc.colliders[i], st.bodies), Placed(sc.colliders[j], st.bodies))
      || (Find(st.triggers.pairs, p) && !Presented(sc.colliders, gens, i, j))
  {
    hide Reaches, StepVisits, Find, Presented, Overlap, SharePoint, OneLine, BoxOf, MoveShape, TriggersOnly;
    var s, t := Placed(sc.colliders[i], st.bodies), Placed(sc.colliders[j], st.bodies);
    OverlapIsCommonPoint(s, t);
    StepAgreesUnlessStale(sc, gens, st, st', i, j);
  }

  /** After a step of triggers every pair whose shapes share a point is in the set, except possibly a polygon
      with a circle that lies off its boundary. */
  lemma SharingPairsFound(sc: Scene, gens: seq<nat>, st: State, st': State, i: nat, j: nat)
    requires |gens| == |sc.colliders| && UpToDate(sc.colliders, st.bodies) && TriggersOnly(sc)
    requires AttachedPair(sc.colliders, i, j) && Reaches(sc, st, StepVisits(sc.colliders, gens), st')
    requires SharePoint(Placed(sc.colliders[i], st.bodies), Placed(sc.colliders[j], st.bodies))
    ensures Find(st'.triggers.pairs, ColliderRefPair(RefOf(gens, i), RefOf(gens, j))) ==
            CollidersOverlap(sc.colliders, st.bodies, i, j)
    ensures !PolygonAndCircle(sc.colliders[i].shape, sc.colliders[j].shape) ==>
      CollidersOverlap(sc.colliders, st.bodies, i, j)
  {
    StepDecides(sc, gens, st, st', i, j);
    BroadPhaseComplete(sc.colliders, gens, st.bodies, i, j);
    hide Reaches, StepVisits, Find, SharePoint, Overlap, BoxOf;
    if !PolygonAndCircle(sc.colliders[i].shape, sc.colliders[j].shape) {
      OverlapMissesNothing(Placed(sc.colliders[i], st.bodies), Placed(sc.colliders[j], st.bodies));
    }
  }

  // -------------------------------------------------------------------- runs of steps

  /** One step of a run. Between steps bodies move and colliders come and go, so each step has its own. */
  datatype Step = Step(scene: Scene, gens: seq<nat>, bodies: seq<Body>) {
    ghost predicate Valid() { |gens| == |scene.colliders| && Attached(scene.colliders, bodies) }
  }

  lemma StepVisitsKnown(cs: seq<Collider>, gens: seq<nat>)
    requires |cs| == |gens|
    ensures forall v :: v in StepVisits(cs, gens) ==> KnownPair(cs, v)
  {
    hide StepVisits;
    forall v | v in StepVisits(cs, gens) ensures KnownPair(cs, v) {
      StepVisitsSound(cs, gens, v);
    }
  }

  ghost function AfterStep(t: TriggerState, step: Step): TriggerState
    requires step.Valid()
  {
    StepVisitsKnown(step.scene.colliders, step.gens);
    VisitAll(step.scene, State(step.bodies, t), StepVisits(step.scene.colliders, step.gens)).triggers
  }

  ghost function AfterRun(steps: seq<Step>): TriggerState
    requires forall step :: step in steps ==> step.Valid()
  {
    if steps == [] then TriggerState({}, []) else AfterStep(AfterRun(steps[..|steps| - 1]), steps[|steps| - 1])
  }

  /** The protocol, and `n` counters of the sample. */
  ghost predicate InStep(t: TriggerState, n: nat) {
    Consistent(t) && EventsInRange(t, n) && CountersMatch(CountAll(n, t.events), t.pairs)
  }

  lemma VisitKeepsStep(sc: Scene, st: State, v: Pair, n: nat)
    requires Attached(sc.colliders, st.bodies) && KnownPair(sc.colliders, v) && HasCounters(sc.colliders, n)
    requires v.0.colRef.index < v.1.colRef.index && InStep(st.triggers, n)
    ensures InStep(VisitPair(sc, st, v).triggers, n)
  {
    hide Consistent, CountersMatch, Attached, CollidersOverlap, Visit, Resolved, CountAll;
    var overlap := CollidersOverlap(sc.colliders, st.bodies, v.0.colRef.index, v.1.colRef.index);
    VisitKeepsProtocol(st.triggers, RefPair(v), overlap);
    VisitKeepsCounters(st.triggers, RefPair(v), overlap, n);
    var e := if overlap then CollisionEnter(RefPair(v)) else CollisionExit(RefPair(v));
    CollisionKeepsProtocol(st.triggers, e);
    CountAllAppend(n, st.triggers.events, e);
  }

  lemma {:induction false} VisitsKeepStep(sc: Scene, st: State, vs: seq<Pair>, st': State, n: nat)
    requires Reaches(sc, st, vs, st') && HasCounters(sc.colliders, n) && LowerFirst(vs) && InStep(st.triggers, n)
    ensures InStep(st'.triggers, n)
  {
    hide InStep, HasCounters, Attached, KnownPair, SameBodyKinds, VisitPair;
    if vs != [] {
      var k := |vs| - 1;
      var mid := VisitAll(sc, st, vs[..k]);
      VisitsKeepStep(sc, st, vs[..k], mid, n);
      VisitKeepsStep(sc, mid, vs[k], n);
    }
  }

  /** Over every run of steps: the events of each pair alternate starting with Enter, the set holds exactly the
      pairs whose last event was Enter, and each counter is the number of pairs in the set with its collider. */
  lemma {:induction false} RunKeepsProtocol(steps: seq<Step>, n: nat)
    requires forall step :: step in steps ==> step.Valid() && HasCounters(step.scene.colliders, n)
    ensures InStep(AfterRun(steps), n)
  {
    if steps == [] {
      NothingYetInStep(n);
    } else {
      var k := |steps| - 1;
      RunKeepsProtocol(steps[..k], n);
      StepKeepsProtocol(AfterRun(steps[..k]), steps[k], n);
    }
  }

  lemma StepKeepsProtocol(t: TriggerState, step: Step, n: nat)
    requires step.Valid() && HasCounters(step.scene.colliders, n) && InStep(t, n)
    ensures InStep(AfterStep(t, step), n)
  {
    hide InStep, HasCounters, StepVisits, Attached;
    var vs := StepVisits(step.scene.colliders, step.gens);
    StepVisitsKnown(step.scene.colliders, step.gens);
    forall v | v in vs ensures v.0.colRef.index < v.1.colRef.index {
      StepVisitsSound(step.scene.colliders, step.gens, v);
    }
    VisitsKeepStep(step.scene, State(step.bodies, t), vs, VisitAll(step.scene, State(step.bodies, t), vs), n);
  }

  lemma NothingYetInStep(n: nat)
    ensures InStep(TriggerState({}, []), n)
  {
    forall c: nat ensures PairsOf({}, c) == {} {}
  }

  // ------------------------------------------------------------------- the missed exit

  function Place(far: real, k: nat): Vec2 { if k == 1 then Vec2(far, 0.0) else ZERO }

  function Disk(far: real, k: nat): Collider {
    Collider(CircleShape(Circle(ZERO, 1.0)), BodyRef(k, 0), Place(far, k), 1.0, true, true)
  }

  /** `n` trigger disks of radius 1, number 1 at distance `far` to the right, the others at the origin. */
  function Disks(far: real, n: nat): (r: seq<Collider>)
    ensures |r| == n && forall k :: 0 <= k < n ==> r[k] == Disk(far, k)
  {
    if n == 0 then [] else Disks(far, n - 1) + [Disk(far, n - 1)]
  }

  function DiskBodies(far: real, n: nat): (r: seq<Body>)
    ensures |r| == n && forall k :: 0 <= k < n ==> r[k] == Body(Place(far, k), ZERO, 1.0, DYNAMIC)
  {
    if n == 0 then [] else DiskBodies(far, n - 1) + [Body(Place(far, n - 1), ZERO, 1.0, DYNAMIC)]
  }

  function Zeros(n: nat): (r: seq<nat>)
    ensures |r| == n && forall k :: 0 <= k < n ==> r[k] == 0
  {
    seq(n, _ => 0)
  }

  function DisksStep(far: real): (step: Step)
    ensures step.Valid() && AttachedPair(step.scene.colliders, 0, 1)
  {
    hide Disks, DiskBodies;
    Step(Scene(v => 0.0, Disks(far, 17), true), Zeros(17), DiskBodies(far, 17))
  }

  function BoxAt(x: real): Rectangle { Rectangle(Vec2(x - 1.0, -1.0), Vec2(x + 1.0, 1.0)) }

  function DisksBox(n: nat): Rectangle {
    Rectangle(Vec2(-1.0, -1.0), Vec2(if n <= 1 then 1.0 else 161.0, 1.0))
  }

  lemma DiskBox(far: real, n: nat, k: nat)
    requires k < n
    ensures Disks(far, n)[k].isAttached && BoxOf(Disks(far, n)[k]) == BoxAt(if k == 1 then far else 0.0)
  {
    hide Disks, PolygonBox, Vec2.Scale, MoveVertices;
    assert Disks(far, n)[k] == Disk(far, k);
    assert BoxOf(Disk(far, k)) == Rectangle.FromCenter(ZERO, Vec2(1.0, 1.0)).Move(Place(far, k));
  }

  lemma GrowBox(n: nat)
    ensures var box := BoxAt(if n == 1 then 160.0 else 0.0);
      Grow(if n == 0 then SEED else DisksBox(n), box.minBound, box.maxBound) == DisksBox(n + 1)
  {}

  lemma {:induction false} DisksRoot(n: nat)
    requires n > 0
    ensures RootBox(Disks(160.0, n)) == DisksBox(n)
  {
    hide BoxOf, BoxAt, Grow, DisksBox, Disk;
    var cs, k := Disks(160.0, n), n - 1;
    assert cs[..k] == Disks(160.0, k);
    DiskBox(160.0, n, k);
    GrowBox(k);
    if k > 0 {
      DisksRoot(k);
    }
  }

  lemma {:induction false} AllEntered(cs: seq<Collider>, gens: seq<nat>, k: nat)
    requires k <= |cs| == |gens| && forall i :: 0 <= i < |cs| ==> cs[i].isAttached
    ensures |Entries(cs, gens, k)| == k
  {
    if k > 0 {
      AllEntered(cs, gens, k - 1);
    }
  }

  const DISK_PAIR := ColliderRefPair(ColliderRef(0, 0), ColliderRef(1, 0))

  ghost predicate DisksOverlap(far: real) {
    CollidersOverlap(DisksStep(far).scene.colliders, DisksStep(far).bodies, 0, 1)
  }

  ghost predicate DisksVisited(far: real) {
    var step := DisksStep(far);
    EntryPair(step.scene.colliders, step.gens, 0, 1) in StepVisits(step.scene.colliders, step.gens)
  }

  lemma FarDiskNotVisited()
    ensures !DisksVisited(160.0)
  {
    var step := DisksStep(160.0);
    var cs, gens := step.scene.colliders, step.gens;
    hide RootBox, Entries, Visits, BoxOf, BoxAt, Disks, DiskBodies, Attached;
    DisksRoot(17);
    AllEntered(cs, gens, 17);
    DiskBox(160.0, 17, 0);
    DiskBox(160.0, 17, 1);
    FarBoxes();
    StepVisitsIff(cs, gens, 0, 1);
  }

  lemma FarBoxes()
    ensures forall k: nat :: k < 4 ==>
      !(RectanglesIntersect(BoxAt(0.0), Quadrant(DisksBox(17), k)) &&
        RectanglesIntersect(BoxAt(160.0), Quadrant(DisksBox(17), k)))
  {}

  ghost function AfterDisksPart(): TriggerState {
    hide Step.Valid, DisksStep, AfterRun;
    AfterRun([DisksStep(0.0), DisksStep(160.0)])
  }

  /** An Exit can be missed: disks 0 and 1 overlap in the first step; in the second disk 1 is far away, but the
      seventeen disks divide the root, the two boxes meet no common quadrant, and the pair stays in the set
      with Enter as its only event. */
  lemma ExitMissed()
    ensures !DisksOverlap(160.0)
    ensures Find(AfterDisksPart().pairs, DISK_PAIR)
    ensures EventsOf(AfterDisksPart().events, DISK_PAIR) == [TriggerEnter(DISK_PAIR)]
  {
    hide EventsOf, AfterStep, AfterRun, Find, Step.Valid, DisksStep, DisksOverlap, DisksVisited;
    DisksOverlapIff(0.0);
    DisksOverlapIff(160.0);
    NearDisksVisited();
    FarDiskNotVisited();
    var t1 := AfterDisks(TriggerState({}, []), 0.0);
    var t2 := AfterDisks(t1, 160.0);
    TwoSteps(DisksStep(0.0), DisksStep(160.0));
    NothingFound(DISK_PAIR);
  }

  lemma TwoSteps(a: Step, b: Step)
    requires a.Valid() && b.Valid()
    ensures AfterRun([a, b]) == AfterStep(AfterStep(TriggerState({}, []), a), b)
  {
    hide AfterStep, Step.Valid;
    var none: seq<Step> := [];
    assert [a, b][..1] == [a] && [a][..0] == none;
    assert AfterRun(none) == TriggerState({}, []);
    assert AfterRun([a]) == AfterStep(AfterRun(none), a);
  }

  lemma NothingFound(p: ColliderRefPair)
    ensures !Find({}, p) && EventsOf([], p) == []
  {}

  lemma DiskPlaced(far: real, k: nat)
    requires k < 17
    ensures var step := DisksStep(far);
      Placed(step.scene.colliders[k], step.bodies) == CircleShape(Circle(Place(far, k), 1.0))
  {
    hide Disks, DiskBodies, Place, Attached;
    assert ZERO.Add(Place(far, k)) == Place(far, k);
  }

  lemma DiskPlaces(far: real)
    ensures Place(far, 0) == ZERO && Place(far, 1) == Vec2(far, 0.0)
  {}

  lemma DisksOverlapIff(far: real)
    ensures DisksOverlap(far) <==> far * far <= 4.0
  {
    hide Placed, Disks, DiskBodies, Attached, MoveShape, CirclesIntersect, Place;
    DiskPlaced(far, 0);
    DiskPlaced(far, 1);
    assert Place(far, 0) == ZERO && Place(far, 1) == Vec2(far, 0.0) by { DiskPlaces(far); }
    CirclesAlongAxis(far);
  }

  lemma CirclesAlongAxis(x: real)
    ensures CirclesIntersect(Circle(ZERO, 1.0), Circle(Vec2(x, 0.0), 1.0)) <==> x * x <= 4.0
  {
    var delta := ZERO.Sub(Vec2(x, 0.0));
    assert delta == Vec2(-x, 0.0) && delta.LengthSq() == x * x;
  }

  lemma NearDisksVisited()
    ensures DisksVisited(0.0)
  {
    var step := DisksStep(0.0);
    var cs, gens := step.scene.colliders, step.gens;
    hide StepVisits, BoxOf, EntryPair, Disks, DiskBodies, Attached;
    DiskBox(0.0, 17, 0);
    DiskBox(0.0, 17, 1);
    assert BoxAt(0.0).Contains(ZERO);
    SharingBoxesVisited(cs, gens, 0, 1, ZERO);
  }

  lemma AfterDisks(t: TriggerState, far: real) returns (t': TriggerState)
    ensures DisksStep(far).Valid() && t' == AfterStep(t, DisksStep(far))
    ensures Find(t'.pairs, DISK_PAIR) == if DisksVisited(far) then DisksOverlap(far) else Find(t.pairs, DISK_PAIR)
    ensures EventsOf(t'.events, DISK_PAIR) ==
            EventsOf(t.events, DISK_PAIR) + Change(Find(t.pairs, DISK_PAIR), Find(t'.pairs, DISK_PAIR), DISK_PAIR)
  {
    hide StepVisits, CollidersOverlap, EventsOf, Find, Disks, DiskBodies;
    var step := DisksStep(far);
    StepVisitsKnown(step.scene.colliders, step.gens);
    var st := State(step.bodies, t);
    var st' := VisitAll(step.scene, st, StepVisits(step.scene.colliders, step.gens));
    StepDecides(step.scene, step.gens, st, st', 0, 1);
    t' := st'.triggers;
  }

  // ------------------------------------------------------------------ the world itself

  /** One collision step of a world of triggers: nothing moves, and the pair set holds every pair of attached
      colliders whose placed shapes share a point, unless one is a circle off the boundary of the other, a polygon. */
  method UpdateFindsSharingPairs(w: World)
    requires w.Valid() && w.quadTree.Valid() && TriggersOnly(w.CurrentScene())
    modifies w`colliders, w`colRefPairs, w.bodies, w.contactListener, w.quadTree
    ensures w.Valid() && w.bodies[..] == old(w.bodies[..])
    ensures |w.colliders| == |w.colliderGenIndices|
    ensures forall i: nat, j: nat :: AttachedPair(w.colliders, i, j) && Sharing(w.colliders, w.bodies[..], i, j) ==>
      Find(w.colRefPairs, ColliderRefPair(RefOf(w.colliderGenIndices, i), RefOf(w.colliderGenIndices, j)))
  {
    ghost var before, cs := w.Now(), w.colliders;
    w.UpdateCollisions();
    ghost var sc, after := w.CurrentScene(), w.Now();
    LocatedUpToDate(cs, sc.colliders, before.bodies);
    SharingFound(sc, w.colliderGenIndices, before, after);
  }

  /** The shapes share a point, and it is not a matter between a polygon and a circle. */
  ghost predicate Sharing(cs: seq<Collider>, bodies: seq<Body>, i: nat, j: nat)
    requires AttachedPair(cs, i, j)
  {
    && cs[i].bodyRef.index < |bodies| && cs[j].bodyRef.index < |bodies|
    && SharePoint(Placed(cs[i], bodies), Placed(cs[j], bodies)) && !PolygonAndCircle(cs[i].shape, cs[j].shape)
  }

  lemma SharingFound(sc: Scene, gens: seq<nat>, st: State, st': State)
    requires |gens| == |sc.colliders| && UpToDate(sc.colliders, st.bodies) && TriggersOnly(sc)
    requires Reaches(sc, st, StepVisits(sc.colliders, gens), st')
    ensures st'.bodies == st.bodies
    ensures forall i: nat, j: nat :: AttachedPair(sc.colliders, i, j) && Sharing(sc.colliders, st.bodies, i, j) ==>
      Find(st'.triggers.pairs, ColliderRefPair(RefOf(gens, i), RefOf(gens, j)))
  {
    hide Reaches, StepVisits, Find, SharePoint, UpToDate, TriggersOnly;
    TriggersMoveNothing(sc, gens, st, st');
    forall i: nat, j: nat | AttachedPair(sc.colliders, i, j) && Sharing(sc.colliders, st.bodies, i, j)
      ensures Find(st'.triggers.pairs, ColliderRefPair(RefOf(gens, i), RefOf(gens, j)))
    {
      SharingPairsFound(sc, gens, st, st', i, j);
    }
  }

  lemma TriggersMoveNothing(sc: Scene, gens: seq<nat>, st: State, st': State)
    requires |gens| == |sc.colliders| && TriggersOnly(sc) && Reaches(sc, st, StepVisits(sc.colliders, gens), st')
    ensures st'.bodies == st.bodies
  {
    hide StepVisits;
    KeepsBodies(sc, st, StepVisits(sc.colliders, gens), st');
  }

  lemma {:induction false} KeepsBodies(sc: Scene, st: State, vs: seq<Pair>, st': State)
    requires TriggersOnly(sc) && Reaches(sc, st, vs, st')
    ensures st'.bodies == st.bodies
  {
    hide Attached, KnownPair, SameBodyKinds, VisitPair, TriggersOnly;
    if vs != [] {
      var n := |vs| - 1;
      var mid := VisitAll(sc, st, vs[..n]);
      KeepsBodies(sc, st, vs[..n], mid);
      TriggerKeepsBodies(sc, mid, vs[n]);
    }
  }

  lemma TriggerKeepsBodies(sc: Scene, st: State, v: Pair)
    requires Attached(sc.colliders, st.bodies) && KnownPair(sc.colliders, v) && TriggersOnly(sc)
    ensures VisitPair(sc, st, v).bodies == st.bodies
  {
    hide Attached, CollidersOverlap, Visit, Resolved;
  }

  lemma LocatedPhysical(cs: seq<Collider>, cs': seq<Collider>, bodies: seq<Body>)
    requires RestitutionsInRange(cs) && PhysicalDynamic(cs, bodies) && |cs'| == |cs|
    requires forall k :: 0 <= k < |cs| ==> cs'[k] == Located(cs[k], bodies)
    ensures RestitutionsInRange(cs') && PhysicalDynamic(cs', bodies)
  {}

  /** One collision step of a world whose physical colliders all belong to dynamic bodies: the momentum stays,
      the kinetic energy does not grow. */
  method UpdateConserves(w: World)
    requires w.Valid() && w.quadTree.Valid() && IsLength(w.length)
    requires PhysicalDynamic(w.colliders, w.bodies[..]) && RestitutionsInRange(w.colliders)
    modifies w`colliders, w`colRefPairs, w.bodies, w.contactListener, w.quadTree
    ensures w.Valid() && PhysicalDynamic(w.colliders, w.bodies[..]) && RestitutionsInRange(w.colliders)
    ensures Momentum(w.bodies[..]) == Momentum(old(w.bodies[..]))
    ensures TwiceEnergy(w.bodies[..]) <= TwiceEnergy(old(w.bodies[..]))
  {
    hide Momentum, TwiceEnergy, PhysicalDynamic, IsLength, Reaches, StepVisits, RestitutionsInRange;
    ghost var before, cs := w.Now(), w.colliders;
    w.UpdateCollisions();
    LocatedPhysical(cs, w.colliders, before.bodies);
    StepConserves(w.CurrentScene(), before, StepVisits(w.colliders, w.colliderGenIndices), w.Now());
  }
}
