/** What a world step does with physical colliders and with pairs that mix both kinds: who is moved and how far,
    who stands, and what a listener is told. */
module CollisionLaws {
  import opened RealArith
  import opened Geometry
  import opened NarrowPhase
  import opened QuadTrees
  import opened BroadPhase
  import opened Contacts
  import opened ContactLaws
  import opened PositionCorrection
  import opened Triggers
  import opened Worlds
  import opened WorldLaws

  /** Both colliders of the pair are physical. */
  predicate PhysicalPair(cs: seq<Collider>, v: Pair)
    requires KnownPair(cs, v)
  {
    !cs[v.0.colRef.index].isTrigger && !cs[v.1.colRef.index].isTrigger
  }

  ghost predicate OverlapNow(cs: seq<Collider>, bodies: seq<Body>, v: Pair)
    requires Attached(cs, bodies) && KnownPair(cs, v)
  {
    CollidersOverlap(cs, bodies, v.0.colRef.index, v.1.colRef.index)
  }

  /** The state in which a traversal meets one of its pairs, and the state it leaves after that visit. */
  lemma MetAt(sc: Scene, st: State, pre: seq<Pair>, v: Pair, post: seq<Pair>, st': State)
    returns (mid: State, next: State)
    requires Reaches(sc, st, pre + [v] + post, st')
    ensures KnownPair(sc.colliders, v) && Attached(sc.colliders, mid.bodies)
    ensures Reaches(sc, st, pre, mid) && next == VisitPair(sc, mid, v) && Reaches(sc, next, post, st')
  {
    hide VisitPair, KnownPair, Attached, SameBodyKinds;
    forall w | w in pre || w == v || w in post ensures KnownPair(sc.colliders, w) {
      assert w in pre + [v] + post;
    }
    mid := VisitAll(sc, st, pre);
    next := VisitPair(sc, mid, v);
    VisitAllAppend(sc, st, pre, v);
    VisitAllConcat(sc, st, pre + [v], post);
  }

  // --------------------------------------------------------------- bodies that do not move

  /** No two physical colliders overlap. */
  ghost predicate PhysicalApart(cs: seq<Collider>, bodies: seq<Body>)
    requires Attached(cs, bodies)
  {
    forall i: nat, j: nat {:trigger CollidersOverlap(cs, bodies, i, j)} ::
      AttachedPair(cs, i, j) && !cs[i].isTrigger && !cs[j].isTrigger ==> !CollidersOverlap(cs, bodies, i, j)
  }

  lemma ApartVisit(sc: Scene, st: State, v: Pair)
    requires Attached(sc.colliders, st.bodies) && KnownPair(sc.colliders, v)
    requires v.0.colRef.index < v.1.colRef.index && PhysicalApart(sc.colliders, st.bodies)
    ensures VisitPair(sc, st, v).bodies == st.bodies
  {
    hide Attached, CollidersOverlap, Visit, Resolved;
  }

  lemma {:induction false} ApartTraversal(sc: Scene, st: State, vs: seq<Pair>, st': State)
    requires Reaches(sc, st, vs, st') && LowerFirst(vs) && PhysicalApart(sc.colliders, st.bodies)
    ensures st'.bodies == st.bodies
  {
    hide Attached, KnownPair, SameBodyKinds, VisitPair, PhysicalApart;
    if vs != [] {
      var n := |vs| - 1;
      var mid := VisitAll(sc, st, vs[..n]);
      ApartTraversal(sc, st, vs[..n], mid);
      ApartVisit(sc, mid, vs[n]);
    }
  }

  lemma StepLowerFirst(cs: seq<Collider>, gens: seq<nat>)
    requires |cs| == |gens|
    ensures LowerFirst(StepVisits(cs, gens))
  {
    hide StepVisits;
    forall v | v in StepVisits(cs, gens) ensures v.0.colRef.index < v.1.colRef.index {
      StepVisitsSound(cs, gens, v);
    }
  }

  /** A step that finds no two physical colliders overlapping leaves every body as it is. */
  lemma NothingToResolve(sc: Scene, gens: seq<nat>, st: State, st': State)
    requires |gens| == |sc.colliders| && Reaches(sc, st, StepVisits(sc.colliders, gens), st')
    requires PhysicalApart(sc.colliders, st.bodies)
    ensures st'.bodies == st.bodies
  {
    hide StepVisits, Reaches, LowerFirst, PhysicalApart;
    StepLowerFirst(sc.colliders, gens);
    ApartTraversal(sc, st, StepVisits(sc.colliders, gens), st');
  }

  /** No physical collider refers to body `k`. */
  predicate Unreferenced(cs: seq<Collider>, k: nat) {
    forall c :: 0 <= c < |cs| && Physical(cs[c]) ==> cs[c].bodyRef.index != k
  }

  lemma VisitOthers(sc: Scene, st: State, v: Pair, k: nat)
    requires Attached(sc.colliders, st.bodies) && KnownPair(sc.colliders, v) && k < |st.bodies|
    ensures var r := VisitPair(sc, st, v).bodies;
      && |r| == |st.bodies| && r[k].bodyType == st.bodies[k].bodyType
      && (st.bodies[k].bodyType != DYNAMIC ==> r[k].position == st.bodies[k].position)
      && (Unreferenced(sc.colliders, k) ==> r[k] == st.bodies[k])
  {
    hide Attached, CollidersOverlap, Visit, Resolved, Unreferenced;
    var c1, c2 := sc.colliders[v.0.colRef.index], sc.colliders[v.1.colRef.index];
    if Physical(c1) && Physical(c2) {
      Referenced(sc.colliders, v.0.colRef.index, k);
      Referenced(sc.colliders, v.1.colRef.index, k);
      BothBodies(sc.colliders, st.bodies, v);
      ResolvedOthers(sc.len, st.bodies, c1.bodyRef.index, c1.shape, c1.restitution,
                     c2.bodyRef.index, c2.shape, c2.restitution, k);
    }
  }

  lemma Referenced(cs: seq<Collider>, c: nat, k: nat)
    requires c < |cs| && Physical(cs[c])
    ensures Unreferenced(cs, k) ==> cs[c].bodyRef.index != k
  {}

  lemma BothBodies(cs: seq<Collider>, bodies: seq<Body>, v: Pair)
    requires Attached(cs, bodies) && KnownPair(cs, v)
    ensures TwoBodies(bodies, cs[v.0.colRef.index].bodyRef.index, cs[v.1.colRef.index].bodyRef.index)
  {}

  /** Whatever is visited, only dynamic bodies change their positions, and a body to which no physical collider
      refers does not change at all. */
  lemma {:induction false} OnlyDynamicMove(sc: Scene, st: State, vs: seq<Pair>, st': State, k: nat)
    requires Reaches(sc, st, vs, st') && k < |st.bodies|
    ensures |st'.bodies| == |st.bodies| && st'.bodies[k].bodyType == st.bodies[k].bodyType
    ensures st.bodies[k].bodyType != DYNAMIC ==> st'.bodies[k].position == st.bodies[k].position
    ensures Unreferenced(sc.colliders, k) ==> st'.bodies[k] == st.bodies[k]
  {
    hide Attached, KnownPair, SameBodyKinds, VisitPair, Unreferenced;
    if vs != [] {
      var n := |vs| - 1;
      var mid := VisitAll(sc, st, vs[..n]);
      OnlyDynamicMove(sc, st, vs[..n], mid, k);
      VisitOthers(sc, mid, vs[n], k);
    }
  }

  // ------------------------------------------------------------------- what a listener is told

  function Report(overlap: bool, p: ColliderRefPair): Event {
    if overlap then CollisionEnter(p) else CollisionExit(p)
  }

  lemma VisitAppends(sc: Scene, st: State, v: Pair)
    requires Attached(sc.colliders, st.bodies) && KnownPair(sc.colliders, v)
    ensures st.triggers.events <= VisitPair(sc, st, v).triggers.events
    ensures PhysicalPair(sc.colliders, v) && sc.listening ==>
      VisitPair(sc, st, v).triggers.events ==
      st.triggers.events + [Report(OverlapNow(sc.colliders, st.bodies, v), RefPair(v))]
  {
    hide Attached, CollidersOverlap, Resolved, Find, Erase;
  }

  lemma {:induction false} EventsGrow(sc: Scene, st: State, vs: seq<Pair>, st': State)
    requires Reaches(sc, st, vs, st')
    ensures st.triggers.events <= st'.triggers.events
  {
    hide Attached, KnownPair, SameBodyKinds, VisitPair;
    if vs != [] {
      var n := |vs| - 1;
      var mid := VisitAll(sc, st, vs[..n]);
      EventsGrow(sc, st, vs[..n], mid);
      VisitAppends(sc, mid, vs[n]);
    }
  }

  /** Each visit of a physical pair is reported: as Enter if the pair overlapped when it was met, else as Exit. The
      report stands right after the events of the visits before. */
  lemma VisitReported(sc: Scene, st: State, pre: seq<Pair>, v: Pair, post: seq<Pair>, st': State) returns (mid: State)
    requires sc.listening && Reaches(sc, st, pre + [v] + post, st')
    requires KnownPair(sc.colliders, v) && PhysicalPair(sc.colliders, v)
    ensures Attached(sc.colliders, mid.bodies) && Reaches(sc, st, pre, mid)
    ensures mid.triggers.events + [Report(OverlapNow(sc.colliders, mid.bodies, v), RefPair(v))] <= st'.triggers.events
  {
    hide Reaches, VisitPair, KnownPair, Attached, PhysicalPair, OverlapNow;
    var next;
    mid, next := MetAt(sc, st, pre, v, post, st');
    VisitAppends(sc, mid, v);
    EventsGrow(sc, next, post, st');
  }

  /** The events that report physical contacts, in order. */
  function Contacting(events: seq<Event>): seq<Event> {
    if events == [] then []
    else
      var rest, e := Contacting(events[..|events| - 1]), events[|events| - 1];
      if e.CollisionEnter? || e.CollisionExit? then rest + [e] else rest
  }

  lemma ContactingAppend(events: seq<Event>, e: Event)
    ensures Contacting(events + [e]) ==
            if e.CollisionEnter? || e.CollisionExit? then Contacting(events) + [e] else Contacting(events)
  {
    assert (events + [e])[..|events|] == events;
  }

  /** The pairs of two physical colliders, in order. */
  function PhysicalOnes(cs: seq<Collider>, vs: seq<Pair>): seq<Pair>
    requires forall v :: v in vs ==> KnownPair(cs, v)
  {
    if vs == [] then []
    else
      var rest, v := PhysicalOnes(cs, vs[..|vs| - 1]), vs[|vs| - 1];
      if PhysicalPair(cs, v) then rest + [v] else rest
  }

  lemma VisitContacting(sc: Scene, st: State, v: Pair)
    requires sc.listening && Attached(sc.colliders, st.bodies) && KnownPair(sc.colliders, v)
    ensures Contacting(VisitPair(sc, st, v).triggers.events) ==
            Contacting(st.triggers.events) +
            if PhysicalPair(sc.colliders, v) then [Report(OverlapNow(sc.colliders, st.bodies, v), RefPair(v))] else []
  {
    hide Attached, CollidersOverlap, Resolved, Find, Erase, Contacting;
    var overlap, p := OverlapNow(sc.colliders, st.bodies, v), RefPair(v);
    ContactingAppend(st.triggers.events, Report(overlap, p));
    ContactingAppend(st.triggers.events, if overlap then TriggerEnter(p) else TriggerExit(p));
  }

  /** A listener gets exactly one report for each visit of a physical pair, in the order of the visits. */
  lemma {:induction false} ReportsMatchVisits(sc: Scene, st: State, vs: seq<Pair>, st': State)
    requires sc.listening && Reaches(sc, st, vs, st')
    ensures var before, after := Contacting(st.triggers.events), Contacting(st'.triggers.events);
      var ps := PhysicalOnes(sc.colliders, vs);
      && before <= after && |after| == |before| + |ps|
      && forall k :: 0 <= k < |ps| ==> after[|before| + k].pair == RefPair(ps[k])
  {
    hide Attached, KnownPair, SameBodyKinds, VisitPair, PhysicalPair, OverlapNow, Contacting;
    if vs != [] {
      var n := |vs| - 1;
      var mid := VisitAll(sc, st, vs[..n]);
      ReportsMatchVisits(sc, st, vs[..n], mid);
      VisitContacting(sc, mid, vs[n]);
    }
  }

  /** Without a listener nothing is reported and no trigger is looked at. */
  lemma {:induction false} NobodyListens(sc: Scene, st: State, vs: seq<Pair>, st': State)
    requires !sc.listening && Reaches(sc, st, vs, st')
    ensures st'.triggers == st.triggers
  {
    hide Attached, KnownPair, SameBodyKinds, CollidersOverlap, Resolved, Visit;
    if vs != [] {
      var n := |vs| - 1;
      var mid := VisitAll(sc, st, vs[..n]);
      NobodyListens(sc, st, vs[..n], mid);
    }
  }

  // ------------------------------------------------------------------ triggers among bodies

  /** The visit is one of the pair `p`, and at least one of its colliders is a trigger. */
  predicate Decides(cs: seq<Collider>, v: Pair, p: ColliderRefPair)
    requires KnownPair(cs, v)
  {
    !PhysicalPair(cs, v) && SamePair(RefPair(v), p)
  }

  lemma OtherVisit(sc: Scene, st: State, v: Pair, p: ColliderRefPair)
    requires Attached(sc.colliders, st.bodies) && KnownPair(sc.colliders, v) && !Decides(sc.colliders, v, p)
    ensures var st' := VisitPair(sc, st, v);
      && Find(st'.triggers.pairs, p) == Find(st.triggers.pairs, p)
      && EventsOf(st'.triggers.events, p) == EventsOf(st.triggers.events, p)
  {
    hide Attached, CollidersOverlap, Resolved, Find, Erase, EventsOf;
    var q, overlap := RefPair(v), OverlapNow(sc.colliders, st.bodies, v);
    FindAfter(st.triggers, q, overlap, p);
    EventsOfAppend(st.triggers.events, if overlap then TriggerEnter(q) else TriggerExit(q), p);
    EventsOfAppend(st.triggers.events, Report(overlap, q), p);
  }

  /** A pair of which no trigger is visited stays in the set or out of it, without an event, whatever else happens. */
  lemma {:induction false} UnvisitedKept(sc: Scene, st: State, vs: seq<Pair>, st': State, p: ColliderRefPair)
    requires Reaches(sc, st, vs, st') && forall v :: v in vs ==> !Decides(sc.colliders, v, p)
    ensures Find(st'.triggers.pairs, p) == Find(st.triggers.pairs, p)
    ensures EventsOf(st'.triggers.events, p) == EventsOf(st.triggers.events, p)
  {
    hide Attached, KnownPair, SameBodyKinds, VisitPair, Decides, Find, EventsOf;
    if vs != [] {
      var n := |vs| - 1;
      var mid := VisitAll(sc, st, vs[..n]);
      UnvisitedKept(sc, st, vs[..n], mid, p);
      OtherVisit(sc, mid, vs[n], p);
    }
  }

  lemma DecidingVisit(sc: Scene, st: State, v: Pair)
    requires Attached(sc.colliders, st.bodies) && KnownPair(sc.colliders, v)
    requires sc.listening && !PhysicalPair(sc.colliders, v)
    ensures var st', p := VisitPair(sc, st, v), RefPair(v);
      && st'.bodies == st.bodies
      && Find(st'.triggers.pairs, p) == OverlapNow(sc.colliders, st.bodies, v)
      && EventsOf(st'.triggers.events, p) ==
         EventsOf(st.triggers.events, p) + Change(Find(st.triggers.pairs, p), Find(st'.triggers.pairs, p), p)
  {
    hide Attached, CollidersOverlap, Resolved, Find, Erase, EventsOf;
    var q, overlap := RefPair(v), OverlapNow(sc.colliders, st.bodies, v);
    FindAfter(st.triggers, q, overlap, q);
    EventsOfAppend(st.triggers.events, if overlap then TriggerEnter(q) else TriggerExit(q), q);
  }

  /** Among moving bodies the last visit of a pair with a trigger decides: afterwards the pair is in the set exactly if
      it overlapped where the bodies stood at that visit. The visit itself moves nothing, and raises one event if the
      membership changed and none otherwise. */
  lemma LastVisitDecides(sc: Scene, st: State, pre: seq<Pair>, v: Pair, post: seq<Pair>, st': State)
    returns (mid: State, next: State)
    requires sc.listening && Reaches(sc, st, pre + [v] + post, st')
    requires KnownPair(sc.colliders, v) && !PhysicalPair(sc.colliders, v)
    requires forall w :: w in post ==> KnownPair(sc.colliders, w) && !Decides(sc.colliders, w, RefPair(v))
    ensures Attached(sc.colliders, mid.bodies) && Reaches(sc, st, pre, mid) && Reaches(sc, next, post, st')
    ensures next.bodies == mid.bodies
    ensures Find(st'.triggers.pairs, RefPair(v)) == OverlapNow(sc.colliders, mid.bodies, v)
    ensures var p := RefPair(v);
      EventsOf(st'.triggers.events, p) ==
      EventsOf(mid.triggers.events, p) + Change(Find(mid.triggers.pairs, p), Find(st'.triggers.pairs, p), p)
  {
    hide Reaches, VisitPair, KnownPair, Attached, PhysicalPair, OverlapNow, Decides, Find, EventsOf, Change;
    mid, next := MetAt(sc, st, pre, v, post, st');
    DecidingVisit(sc, mid, v);
    UnvisitedKept(sc, next, post, st', RefPair(v));
  }

  // ------------------------------------------------------------------------ what is resolved

  /** Circles or ordered rectangles with restitutions, on two different dynamic bodies with mass. */
  predicate OnTwoDynamic(c: Collider, d: Collider, bodies: seq<Body>) {
    && Solid(c.shape) && Solid(d.shape) && 0.0 <= c.restitution && 0.0 <= d.restitution
    && c.bodyRef.index != d.bodyRef.index && TwoBodies(bodies, c.bodyRef.index, d.bodyRef.index)
    && bodies[c.bodyRef.index].bodyType == DYNAMIC && bodies[d.bodyRef.index].bodyType == DYNAMIC
  }

  lemma VisitResolves(sc: Scene, st: State, v: Pair) returns (e: real)
    requires IsLength(sc.len) && Attached(sc.colliders, st.bodies)
    requires KnownPair(sc.colliders, v) && PhysicalPair(sc.colliders, v)
    ensures |VisitPair(sc, st, v).bodies| == |st.bodies|
    ensures Answered(sc, st.bodies, v, VisitPair(sc, st, v).bodies, e)
  {
    hide Overlap, MoveShape, Resolved, IsLength, Separated, Solid, IsMean;
    var c, d := sc.colliders[v.0.colRef.index], sc.colliders[v.1.colRef.index];
    e := 0.0;
    if OnTwoDynamic(c, d, st.bodies) && OverlapNow(sc.colliders, st.bodies, v) {
      e := ContactSeparates(sc.len, st.bodies, c.bodyRef.index, c.shape, c.restitution,
                            d.bodyRef.index, d.shape, d.restitution);
    }
  }

  /** Bodies that do not overlap stay as they are. Circles and rectangles on two dynamic bodies that overlap are
      separated with the mean restitution `e`. */
  ghost predicate Answered(sc: Scene, before: seq<Body>, v: Pair, after: seq<Body>, e: real)
    requires Attached(sc.colliders, before) && KnownPair(sc.colliders, v) && |after| == |before|
  {
    var c, d := sc.colliders[v.0.colRef.index], sc.colliders[v.1.colRef.index];
    var x, y := c.bodyRef.index, d.bodyRef.index;
    if !OverlapNow(sc.colliders, before, v) then after == before
    else OnTwoDynamic(c, d, before) ==>
      && IsMean(e, before[x].mass, c.restitution, before[y].mass, d.restitution)
      && Separated(sc.len, before, after, x, c.shape, y, d.shape, e)
  }

  /** Every visit of a physical pair answers exactly the overlap that it finds, wherever it stands in the traversal. */
  lemma EveryVisitResolves(sc: Scene, st: State, pre: seq<Pair>, v: Pair, post: seq<Pair>, st': State)
    returns (mid: State, next: State, e: real)
    requires IsLength(sc.len) && Reaches(sc, st, pre + [v] + post, st')
    requires KnownPair(sc.colliders, v) && PhysicalPair(sc.colliders, v)
    ensures Attached(sc.colliders, mid.bodies) && Reaches(sc, st, pre, mid) && Reaches(sc, next, post, st')
    ensures |next.bodies| == |mid.bodies| && Answered(sc, mid.bodies, v, next.bodies, e)
  {
    hide Reaches, VisitPair, KnownPair, Attached, PhysicalPair, Answered, IsLength;
    mid, next := MetAt(sc, st, pre, v, post, st');
    e := VisitResolves(sc, mid, v);
  }

  // ----------------------------------------------------------------- a world of two colliders

  /** Colliders `i` and `j` are the only attached ones. */
  predicate OnlyTwo(cs: seq<Collider>, i: nat, j: nat) {
    AttachedPair(cs, i, j) && forall k :: 0 <= k < |cs| && cs[k].isAttached ==> k == i || k == j
  }

  lemma {:induction false} TwoEntries(cs: seq<Collider>, gens: seq<nat>, i: nat, j: nat, k: nat)
    requires k <= |cs| == |gens| && OnlyTwo(cs, i, j)
    ensures Entries(cs, gens, k) ==
            if k <= i then [] else if k <= j then [EntryOf(cs, gens, i)]
            else [EntryOf(cs, gens, i), EntryOf(cs, gens, j)]
  {
    hide EntryOf;
    if k > 0 {
      TwoEntries(cs, gens, i, j, k - 1);
    }
  }

  lemma OnePair(x: ColliderRefAabb, y: ColliderRefAabb)
    ensures LeafPairs([x, y], 2) == [(x, y)]
  {
    var s := [x, y];
    assert RowPairs(s, 1, 2) == [] && RowPairs(s, 0, 1) == [];
    assert RowPairs(s, 0, 2) == RowPairs(s, 0, 1) + [(s[0], s[1])];
    assert LeafPairs(s, 0) == [] && LeafPairs(s, 1) == LeafPairs(s, 0) + RowPairs(s, 0, 2);
  }

  /** Two colliders fit in one leaf: the pair is visited once, wherever they are. */
  lemma OneVisit(cs: seq<Collider>, gens: seq<nat>, i: nat, j: nat)
    requires |cs| == |gens| && OnlyTwo(cs, i, j)
    ensures StepVisits(cs, gens) == [EntryPair(cs, gens, i, j)]
  {
    hide EntryOf, RootBox, LeafPairs, Entries;
    TwoEntries(cs, gens, i, j, |cs|);
    OnePair(EntryOf(cs, gens, i), EntryOf(cs, gens, j));
    NodeVisits(RootBox(cs), 0, Entries(cs, gens, |cs|));
  }

  /** The two attached colliders are physical. */
  predicate TwoPhysical(cs: seq<Collider>, i: nat, j: nat) {
    OnlyTwo(cs, i, j) && !cs[i].isTrigger && !cs[j].isTrigger
  }

  /** One step of two physical colliders: the contact is resolved exactly if they overlap, and reported either way. */
  lemma StepOfTwo(sc: Scene, gens: seq<nat>, st: State, st': State, i: nat, j: nat)
    requires |gens| == |sc.colliders| && TwoPhysical(sc.colliders, i, j)
    requires Reaches(sc, st, StepVisits(sc.colliders, gens), st')
    ensures var c1, c2 := sc.colliders[i], sc.colliders[j];
      st'.bodies == if CollidersOverlap(sc.colliders, st.bodies, i, j)
                    then Resolved(sc.len, st.bodies, c1.bodyRef.index, c1.shape, c1.restitution,
                                  c2.bodyRef.index, c2.shape, c2.restitution)
                    else st.bodies
    ensures st'.triggers.pairs == st.triggers.pairs
    ensures st'.triggers.events == st.triggers.events +
      if !sc.listening then []
      else [Report(CollidersOverlap(sc.colliders, st.bodies, i, j),
                   ColliderRefPair(RefOf(gens, i), RefOf(gens, j)))]
  {
    hide CollidersOverlap, Resolved, Attached, SameBodyKinds, StepVisits, BoxOf;
    var v := EntryPair(sc.colliders, gens, i, j);
    OneVisit(sc.colliders, gens, i, j);
    var none: seq<Pair> := [];
    assert [v][..0] == none && VisitAll(sc, st, none) == st;
    assert st' == VisitPair(sc, VisitAll(sc, st, none), v);
  }

  /** One step of two overlapping physical colliders on two dynamic bodies, circles or rectangles: afterwards the pair
      is exactly touching, unless a circle was sunk or the rectangle came first, and separates with the mean
      restitution times its old approach. */
  lemma TwoSeparate(sc: Scene, gens: seq<nat>, st: State, st': State, i: nat, j: nat) returns (e: real)
    requires IsLength(sc.len) && |gens| == |sc.colliders| && TwoPhysical(sc.colliders, i, j)
    requires Reaches(sc, st, StepVisits(sc.colliders, gens), st')
    requires OnTwoDynamic(sc.colliders[i], sc.colliders[j], st.bodies)
    requires Overlap(Placed(sc.colliders[i], st.bodies), Placed(sc.colliders[j], st.bodies))
    ensures var c, d := sc.colliders[i], sc.colliders[j];
      var x, y := c.bodyRef.index, d.bodyRef.index;
      && |st'.bodies| == |st.bodies|
      && IsMean(e, st.bodies[x].mass, c.restitution, st.bodies[y].mass, d.restitution)
      && Separated(sc.len, st.bodies, st'.bodies, x, c.shape, y, d.shape, e)
      && (forall k :: 0 <= k < |st.bodies| && k != x && k != y ==> st'.bodies[k] == st.bodies[k])
  {
    hide Overlap, MoveShape, Resolved, StepVisits, Reaches, IsLength, Separated, Solid, IsMean;
    var c, d := sc.colliders[i], sc.colliders[j];
    var x, y := c.bodyRef.index, d.bodyRef.index;
    StepOfTwo(sc, gens, st, st', i, j);
    e := ContactSeparates(sc.len, st.bodies, x, c.shape, c.restitution, y, d.shape, d.restitution);
    forall k | 0 <= k < |st.bodies| && k != x && k != y ensures st'.bodies[k] == st.bodies[k] {
      ResolvedOthers(sc.len, st.bodies, x, c.shape, c.restitution, y, d.shape, d.restitution, k);
    }
  }

  // -------------------------------------------------------------------------- the world itself

  lemma LocatedApart(cs: seq<Collider>, cs': seq<Collider>, bodies: seq<Body>)
    requires Attached(cs, bodies) && PhysicalApart(cs, bodies) && |cs'| == |cs|
    requires forall k :: 0 <= k < |cs| ==> cs'[k] == Located(cs[k], bodies)
    ensures Attached(cs', bodies) && PhysicalApart(cs', bodies)
  {
    hide Overlap, MoveShape;
    forall i: nat, j: nat | AttachedPair(cs', i, j) && !cs'[i].isTrigger && !cs'[j].isTrigger
      ensures !CollidersOverlap(cs', bodies, i, j)
    {
      assert !CollidersOverlap(cs, bodies, i, j);
    }
  }

  /** One collision step of any world: no body that is not dynamic changes its position, and if no two physical
      colliders overlap nothing changes at all. */
  method UpdateMovesDynamic(w: World)
    requires w.Valid() && w.quadTree.Valid()
    modifies w`colliders, w`colRefPairs, w.bodies, w.contactListener, w.quadTree
    ensures w.Valid()
    ensures forall k :: 0 <= k < w.bodies.Length && old(w.bodies[k]).bodyType != DYNAMIC ==>
      w.bodies[k].position == old(w.bodies[k]).position
    ensures PhysicalApart(old(w.colliders), old(w.bodies[..])) ==> w.bodies[..] == old(w.bodies[..])
  {
    hide Reaches, StepVisits, PhysicalApart, Located;
    ghost var before, cs := w.Now(), w.colliders;
    w.UpdateCollisions();
    ghost var sc, vs, after := w.CurrentScene(), StepVisits(w.colliders, w.colliderGenIndices), w.Now();
    forall k | 0 <= k < w.bodies.Length && before.bodies[k].bodyType != DYNAMIC
      ensures after.bodies[k].position == before.bodies[k].position
    {
      OnlyDynamicMove(sc, before, vs, after, k);
    }
    if PhysicalApart(cs, before.bodies) {
      LocatedApart(cs, w.colliders, before.bodies);
      NothingToResolve(sc, w.colliderGenIndices, before, after);
    }
  }
}
