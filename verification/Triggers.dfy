/** The trigger protocol: a persistent set of unordered collider pairs, the events it causes,
    and the listener that counts them. */
module Triggers {
  import opened QuadTrees

  datatype ColliderRefPair = ColliderRefPair(a: ColliderRef, b: ColliderRef)

  /** Equality of pairs ignores the order of the two colliders. */
  predicate SamePair(p: ColliderRefPair, q: ColliderRefPair) {
    (p.a == q.a && p.b == q.b) || (p.a == q.b && p.b == q.a)
  }

  function Xor(x: bv64, y: bv64): bv64 { x ^ y }

  function Hash(h: nat -> bv64, p: ColliderRefPair): bv64 { Xor(h(p.a.index), h(p.b.index)) }

  /** Equal pairs hash equally, whatever the hash of an index is. */
  lemma SamePairSameHash(h: nat -> bv64, p: ColliderRefPair, q: ColliderRefPair)
    requires SamePair(p, q)
    ensures Hash(h, p) == Hash(h, q)
  {
    hide Xor;
    XorCommutes(h(p.a.index), h(p.b.index));
  }

  /** The hash depends on both colliders: it tells two pairs with one collider in common apart exactly if the hash of
      an index tells the others apart. */
  lemma HashSeparates(h: nat -> bv64, a: ColliderRef, b: ColliderRef, c: ColliderRef)
    ensures Hash(h, ColliderRefPair(a, b)) == Hash(h, ColliderRefPair(a, c)) <==> h(b.index) == h(c.index)
  {
    hide Xor;
    XorCancels(h(a.index), h(b.index), h(c.index));
  }

  lemma XorCancels(x: bv64, y: bv64, z: bv64)
    ensures Xor(x, y) == Xor(x, z) <==> y == z
  {
    assert x ^ (x ^ y) == y && x ^ (x ^ z) == z;
  }

  lemma XorCommutes(x: bv64, y: bv64)
    ensures Xor(x, y) == Xor(y, x)
  {}

  datatype Event =
    | TriggerEnter(pair: ColliderRefPair)
    | TriggerExit(pair: ColliderRefPair)
    | CollisionEnter(pair: ColliderRefPair)
    | CollisionExit(pair: ColliderRefPair)

  /** Lookup in the pair set, with the set's own notion of equality. */
  predicate Find(pairs: set<ColliderRefPair>, p: ColliderRefPair) {
    exists q :: q in pairs && SamePair(q, p)
  }

  function Erase(pairs: set<ColliderRefPair>, p: ColliderRefPair): set<ColliderRefPair> {
    set q | q in pairs && !SamePair(q, p)
  }

  datatype TriggerState = TriggerState(pairs: set<ColliderRefPair>, events: seq<Event>)

  /** One visit of a pair of which at least one collider is a trigger. */
  function Visit(st: TriggerState, p: ColliderRefPair, overlap: bool): TriggerState {
    if Find(st.pairs, p) then
      if overlap then st else TriggerState(Erase(st.pairs, p), st.events + [TriggerExit(p)])
    else
      if overlap then TriggerState(st.pairs + {p}, st.events + [TriggerEnter(p)]) else st
  }

  // ------------------------------------------------------------- the events alternate

  predicate Concerns(e: Event, p: ColliderRefPair) {
    (e.TriggerEnter? || e.TriggerExit?) && SamePair(e.pair, p)
  }

  /** The trigger events of one pair, in order. */
  function EventsOf(events: seq<Event>, p: ColliderRefPair): seq<Event> {
    if events == [] then []
    else
      var rest, e := EventsOf(events[..|events| - 1], p), events[|events| - 1];
      if Concerns(e, p) then rest + [e] else rest
  }

  /** Enter, Exit, Enter, ... starting with Enter. */
  predicate Alternates(log: seq<Event>) {
    forall i :: 0 <= i < |log| ==> log[i].TriggerEnter? == (i % 2 == 0)
  }

  /** The events of every pair alternate, and the set holds exactly the pairs whose last event was Enter,
      each of them once. */
  ghost predicate Consistent(st: TriggerState) {
    && (forall p :: Alternates(EventsOf(st.events, p)))
    && (forall p :: Find(st.pairs, p) <==> |EventsOf(st.events, p)| % 2 == 1)
    && (forall p, q :: p in st.pairs && q in st.pairs && SamePair(p, q) ==> p == q)
  }

  lemma LastEventDecides(st: TriggerState, p: ColliderRefPair)
    requires Consistent(st)
    ensures var log := EventsOf(st.events, p);
      Find(st.pairs, p) <==> log != [] && log[|log| - 1].TriggerEnter?
  {
    var log := EventsOf(st.events, p);
    assert Alternates(log);
    if log != [] {
      assert log[|log| - 1].TriggerEnter? == ((|log| - 1) % 2 == 0);
    }
  }

  lemma EventsOfAppend(events: seq<Event>, e: Event, p: ColliderRefPair)
    ensures EventsOf(events + [e], p) == if Concerns(e, p) then EventsOf(events, p) + [e] else EventsOf(events, p)
  {
    assert (events + [e])[..|events|] == events;
  }

  lemma FindSame(pairs: set<ColliderRefPair>, p: ColliderRefPair, q: ColliderRefPair)
    requires SamePair(p, q)
    ensures Find(pairs, p) == Find(pairs, q)
  {
    if Find(pairs, p) {
      var r :| r in pairs && SamePair(r, p);
      assert SamePair(r, q);
    }
    if Find(pairs, q) {
      var r :| r in pairs && SamePair(r, q);
      assert SamePair(r, p);
    }
  }

  lemma FindAfter(st: TriggerState, p: ColliderRefPair, overlap: bool, q: ColliderRefPair)
    ensures Find(Visit(st, p, overlap).pairs, q) == if SamePair(p, q) then overlap else Find(st.pairs, q)
  {
    var st' := Visit(st, p, overlap);
    if SamePair(p, q) {
      FindSame(st.pairs, p, q);
      if overlap && !Find(st.pairs, p) {
        assert p in st'.pairs;
      }
    } else {
      if Find(st.pairs, q) {
        var r :| r in st.pairs && SamePair(r, q);
        assert r in st'.pairs;
      }
      if Find(st'.pairs, q) {
        var r :| r in st'.pairs && SamePair(r, q);
        assert r in st.pairs;
      }
    }
  }

  /** Every visit, with whatever answer of the overlap test, keeps the protocol. */
  lemma VisitKeepsProtocol(st: TriggerState, p: ColliderRefPair, overlap: bool)
    requires Consistent(st)
    ensures Consistent(Visit(st, p, overlap))
  {
    forall q
      ensures Alternates(EventsOf(Visit(st, p, overlap).events, q))
      ensures Find(Visit(st, p, overlap).pairs, q) <==> |EventsOf(Visit(st, p, overlap).events, q)| % 2 == 1
    {
      VisitKeepsLog(st, p, overlap, q);
    }
    VisitKeepsSingle(st, p, overlap);
  }

  lemma VisitKeepsLog(st: TriggerState, p: ColliderRefPair, overlap: bool, q: ColliderRefPair)
    requires Alternates(EventsOf(st.events, q))
    requires Find(st.pairs, q) <==> |EventsOf(st.events, q)| % 2 == 1
    ensures Alternates(EventsOf(Visit(st, p, overlap).events, q))
    ensures Find(Visit(st, p, overlap).pairs, q) <==> |EventsOf(Visit(st, p, overlap).events, q)| % 2 == 1
  {
    hide Find, EventsOf, Erase, SamePair;
    FindAfter(st, p, overlap, q);
    if SamePair(p, q) {
      FindSame(st.pairs, p, q);
    }
    if overlap != Find(st.pairs, p) {
      EventsOfAppend(st.events, if overlap then TriggerEnter(p) else TriggerExit(p), q);
    }
  }

  lemma VisitKeepsSingle(st: TriggerState, p: ColliderRefPair, overlap: bool)
    requires forall q, r :: q in st.pairs && r in st.pairs && SamePair(q, r) ==> q == r
    ensures var st' := Visit(st, p, overlap);
      forall q, r :: q in st'.pairs && r in st'.pairs && SamePair(q, r) ==> q == r
  {
    if overlap && !Find(st.pairs, p) {
      forall q | q in st.pairs ensures !SamePair(q, p) && !SamePair(p, q) {}
    }
  }

  lemma CollisionKeepsProtocol(st: TriggerState, e: Event)
    requires Consistent(st) && (e.CollisionEnter? || e.CollisionExit?)
    ensures Consistent(st.(events := st.events + [e]))
  {
    forall q ensures EventsOf(st.events + [e], q) == EventsOf(st.events, q) {
      EventsOfAppend(st.events, e, q);
    }
  }

  // --------------------------------------------------------------- the sample's counters

  predicate Touches(p: ColliderRefPair, c: nat) { p.a.index == c || p.b.index == c }

  ghost function PairsOf(pairs: set<ColliderRefPair>, c: nat): set<ColliderRefPair> {
    set p | p in pairs && Touches(p, c)
  }

  function Bump(counters: seq<int>, i: nat, step: int): (r: seq<int>)
    requires i < |counters|
    ensures |r| == |counters|
  {
    counters[i := counters[i] + step]
  }

  /** Both colliders of the event are among the counted ones. */
  predicate InRange(e: Event, n: nat) { e.pair.a.index < n && e.pair.b.index < n }

  function Counted(counters: seq<int>, e: Event): (r: seq<int>)
    requires InRange(e, |counters|)
    ensures |r| == |counters|
  {
    match e
    case TriggerEnter(p) => Bump(Bump(counters, p.a.index, 1), p.b.index, 1)
    case TriggerExit(p) => Bump(Bump(counters, p.a.index, -1), p.b.index, -1)
    case _ => counters
  }

  /** Every counter is the number of overlapping pairs of its collider. */
  ghost predicate CountersMatch(counters: seq<int>, pairs: set<ColliderRefPair>) {
    && (forall c :: 0 <= c < |counters| ==> counters[c] == |PairsOf(pairs, c)|)
    && (forall p :: p in pairs ==> p.a.index != p.b.index)
  }

  lemma EnterCounts(counters: seq<int>, pairs: set<ColliderRefPair>, p: ColliderRefPair)
    requires CountersMatch(counters, pairs) && p !in pairs && p.a.index != p.b.index
    requires InRange(TriggerEnter(p), |counters|)
    ensures CountersMatch(Counted(counters, TriggerEnter(p)), pairs + {p})
  {
    forall c: nat ensures |PairsOf(pairs + {p}, c)| == |PairsOf(pairs, c)| + (if Touches(p, c) then 1 else 0) {
      if Touches(p, c) {
        assert PairsOf(pairs + {p}, c) == PairsOf(pairs, c) + {p};
      } else {
        assert PairsOf(pairs + {p}, c) == PairsOf(pairs, c);
      }
    }
  }

  /** The set holds the pair once, possibly in the other order; both orders bump the same two counters. */
  lemma ExitCounts(counters: seq<int>, pairs: set<ColliderRefPair>, p: ColliderRefPair)
    requires CountersMatch(counters, pairs) && Find(pairs, p)
    requires forall q, r :: q in pairs && r in pairs && SamePair(q, r) ==> q == r
    requires InRange(TriggerExit(p), |counters|)
    ensures CountersMatch(Counted(counters, TriggerExit(p)), Erase(pairs, p))
  {
    var q :| q in pairs && SamePair(q, p);
    assert Erase(pairs, p) == pairs - {q};
    forall c: nat ensures |PairsOf(pairs - {q}, c)| == |PairsOf(pairs, c)| - (if Touches(p, c) then 1 else 0) {
      if Touches(p, c) {
        assert q in PairsOf(pairs, c) && PairsOf(pairs - {q}, c) == PairsOf(pairs, c) - {q};
      } else {
        assert PairsOf(pairs - {q}, c) == PairsOf(pairs, c);
      }
    }
  }

  /** The counters after all events so far, starting from `n` zeros. */
  function CountAll(n: nat, events: seq<Event>): (r: seq<int>)
    requires forall e :: e in events ==> InRange(e, n)
    ensures |r| == n
  {
    if events == [] then seq(n, _ => 0) else Counted(CountAll(n, events[..|events| - 1]), events[|events| - 1])
  }

  lemma CountAllAppend(n: nat, events: seq<Event>, e: Event)
    requires forall x :: x in events ==> InRange(x, n)
    requires InRange(e, n)
    ensures forall x :: x in events + [e] ==> InRange(x, n)
    ensures CountAll(n, events + [e]) == Counted(CountAll(n, events), e)
  {
    assert (events + [e])[..|events|] == events;
  }

  ghost predicate EventsInRange(st: TriggerState, n: nat) {
    forall e :: e in st.events ==> InRange(e, n)
  }

  /** A visit keeps every counter equal to the number of pairs of its collider. */
  lemma VisitKeepsCounters(st: TriggerState, p: ColliderRefPair, overlap: bool, n: nat)
    requires Consistent(st) && EventsInRange(st, n) && CountersMatch(CountAll(n, st.events), st.pairs)
    requires InRange(TriggerEnter(p), n) && p.a.index != p.b.index
    ensures var st' := Visit(st, p, overlap);
      EventsInRange(st', n) && CountersMatch(CountAll(n, st'.events), st'.pairs)
  {
    if overlap && !Find(st.pairs, p) {
      CountAllAppend(n, st.events, TriggerEnter(p));
      if p in st.pairs { assert SamePair(p, p); }
      EnterCounts(CountAll(n, st.events), st.pairs, p);
    } else if !overlap && Find(st.pairs, p) {
      CountAllAppend(n, st.events, TriggerExit(p));
      ExitCounts(CountAll(n, st.events), st.pairs, p);
    }
  }

  /** The listener of the trigger sample. `events` records every call it received. */
  class TriggerSample {
    var triggerNbrPerCollider: seq<int>
    ghost var events: seq<Event>

    ghost predicate Valid()
      reads this
    {
      && (forall e :: e in events ==> InRange(e, |triggerNbrPerCollider|))
      && triggerNbrPerCollider == CountAll(|triggerNbrPerCollider|, events)
    }

    constructor (n: nat)
      ensures Valid() && |triggerNbrPerCollider| == n && events == []
    {
      triggerNbrPerCollider := seq(n, _ => 0);
      events := [];
    }

    method OnTriggerEnter(col1: ColliderRef, col2: ColliderRef)
      requires Valid() && InRange(TriggerEnter(ColliderRefPair(col1, col2)), |triggerNbrPerCollider|)
      modifies this
      ensures Valid() && |triggerNbrPerCollider| == old(|triggerNbrPerCollider|)
      ensures events == old(events) + [TriggerEnter(ColliderRefPair(col1, col2))]
    {
      triggerNbrPerCollider := triggerNbrPerCollider[col1.index := triggerNbrPerCollider[col1.index] + 1];
      triggerNbrPerCollider := triggerNbrPerCollider[col2.index := triggerNbrPerCollider[col2.index] + 1];
      CountAllAppend(|triggerNbrPerCollider|, events, TriggerEnter(ColliderRefPair(col1, col2)));
      events := events + [TriggerEnter(ColliderRefPair(col1, col2))];
    }

    method OnTriggerExit(col1: ColliderRef, col2: ColliderRef)
      requires Valid() && InRange(TriggerExit(ColliderRefPair(col1, col2)), |triggerNbrPerCollider|)
      modifies this
      ensures Valid() && |triggerNbrPerCollider| == old(|triggerNbrPerCollider|)
      ensures events == old(events) + [TriggerExit(ColliderRefPair(col1, col2))]
    {
      triggerNbrPerCollider := triggerNbrPerCollider[col1.index := triggerNbrPerCollider[col1.index] - 1];
      triggerNbrPerCollider := triggerNbrPerCollider[col2.index := triggerNbrPerCollider[col2.index] - 1];
      CountAllAppend(|triggerNbrPerCollider|, events, TriggerExit(ColliderRefPair(col1, col2)));
      events := events + [TriggerExit(ColliderRefPair(col1, col2))];
    }

    /** The sample ignores physical collisions; only the record grows. */
    method OnCollision(e: Event)
      requires Valid() && InRange(e, |triggerNbrPerCollider|) && (e.CollisionEnter? || e.CollisionExit?)
      modifies this`events
      ensures Valid() && events == old(events) + [e]
    {
      CountAllAppend(|triggerNbrPerCollider|, events, e);
      events := events + [e];
    }
  }
}
