/** The laws of the collision response: restitution, conservation, and the position correction. */
module ContactLaws {
  import opened RealArith
  import opened Geometry
  import opened NarrowPhase
  import opened Contacts

  /** The normal of a touch between circles and rectangles is a unit vector; polygons give the zero vector. */
  predicate UnitOrZero(n: Vec2) { n == ZERO || n.LengthSq() == 1.0 }

  lemma DirectionIsUnit(len: Vec2 -> real, delta: Vec2)
    requires IsLength(len)
    ensures Direction(len, delta).LengthSq() == 1.0
    ensures len(delta) > 0.0 ==> Direction(len, delta).Scale(len(delta)) == delta
  {
    var d := len(delta);
    if d > 0.0 {
      var k := 1.0 / d;
      DivTimes(1.0, d);
      assert delta.Scale(k).LengthSq() == delta.LengthSq() * (k * k);
      assert (d * d) * (k * k) == (k * d) * (k * d) == 1.0;
      assert delta.Scale(k).Scale(d) == delta by {
        ScaleBack(delta.x, k, d);
        ScaleBack(delta.y, k, d);
      }
    }
  }

  lemma ScaleBack(a: real, k: real, d: real)
    requires k * d == 1.0
    ensures (a * k) * d == a
  {
    assert (a * k) * d == a * (k * d);
  }

  lemma TouchNormal(len: Vec2 -> real, s: Shape, p: Vec2, t: Shape, q: Vec2)
    requires IsLength(len)
    ensures UnitOrZero(TouchOf(len, s, p, t, q).normal)
  {
    hide Direction, Vec2.Add, Vec2.Sub, Vec2.Scale;
    match (s, t) {
      case (CircleShape(a), CircleShape(b)) =>
        DirectionIsUnit(len, p.Add(a.center).Sub(q).Sub(b.center));
      case (CircleShape(a), RectangleShape(b)) =>
        var center := p.Add(a.center);
        DirectionIsUnit(len, center.Sub(ClosestInRectangle(b.Move(q), center)));
      case _ =>
    }
  }

  // -------------------------------------------------------------------------- depth

  /** A rectangle before a circle: the contact swaps them. */
  predicate Swapped(s: Shape, t: Shape) { s.RectangleShape? && t.CircleShape? }

  /** The touch the response works with: a rectangle against a circle is measured the other way round. */
  function MeasuredTouch(len: Vec2 -> real, s: Shape, p: Vec2, t: Shape, q: Vec2): Touch {
    if Swapped(s, t) then TouchOf(len, t, q, s, p) else TouchOf(len, s, p, t, q)
  }

  /** For circles and rectangles the overlap test and the measured depth agree, in either order. */
  lemma OverlapIffPenetration(len: Vec2 -> real, s: Shape, p: Vec2, t: Shape, q: Vec2)
    requires IsLength(len) && Solid(s) && Solid(t)
    ensures Overlap(MoveShape(s, p), MoveShape(t, q)) <==> MeasuredTouch(len, s, p, t, q).penetration >= 0.0
  {
    match (s, t) {
      case (CircleShape(a), CircleShape(b)) => CirclesDepth(len, a, p, b, q);
      case (CircleShape(a), RectangleShape(b)) => CircleRectangleDepth(len, a, p, b, q);
      case (RectangleShape(a), CircleShape(b)) => CircleRectangleDepth(len, b, q, a, p);
      case (RectangleShape(a), RectangleShape(b)) =>
        AxisDepth(a.minBound.x, a.maxBound.x, p.x, b.minBound.x, b.maxBound.x, q.x);
        AxisDepth(a.minBound.y, a.maxBound.y, p.y, b.minBound.y, b.maxBound.y, q.y);
    }
  }

  lemma CirclesDepth(len: Vec2 -> real, a: Circle, p: Vec2, b: Circle, q: Vec2)
    requires IsLength(len)
    ensures CirclesIntersect(a.Move(p), b.Move(q)) <==>
            TouchOf(len, CircleShape(a), p, CircleShape(b), q).penetration >= 0.0
  {
    var delta := p.Add(a.center).Sub(q).Sub(b.center);
    assert a.Move(p).center.Sub(b.Move(q).center) == delta;
    LengthWithin(len, delta, a.radius + b.radius);
  }

  lemma LengthWithin(len: Vec2 -> real, v: Vec2, r: real)
    requires IsLength(len) && 0.0 <= r
    ensures v.LengthSq() <= r * r <==> len(v) <= r
  {
    SquareMonotone(len(v), r);
  }

  lemma CircleRectangleDepth(len: Vec2 -> real, a: Circle, p: Vec2, b: Rectangle, q: Vec2)
    requires IsLength(len) && b.Ordered()
    ensures RectangleCircleIntersect(b.Move(q), a.Move(p)) <==>
            TouchOf(len, CircleShape(a), p, RectangleShape(b), q).penetration >= 0.0
  {
    var center := p.Add(a.center);
    var delta := center.Sub(ClosestInRectangle(b.Move(q), center));
    assert a.Move(p).center == center;
    hide RectangleCircleIntersect, ClosestInRectangle, Direction;
    assert b.Move(q).Ordered();
    RectangleCircleByDistance(b.Move(q), a.Move(p));
    LengthWithin(len, delta, a.radius);
  }

  /** Two intervals meet exactly when the half sizes reach over the distance of the centres. */
  lemma AxisDepth(lo: real, hi: real, p: real, lo': real, hi': real, q: real)
    requires lo <= hi && lo' <= hi'
    ensures !(hi + p < lo' + q || lo + p > hi' + q) <==>
            (hi - lo) * 0.5 + (hi' - lo') * 0.5 - Abs(p + (lo + hi) * 0.5 - q - (lo' + hi') * 0.5) >= 0.0
  {}

  // --------------------------------------------------------------------- velocities

  /** Whatever the body types, the relative velocity changes by the impulse times both inverse masses. */
  lemma RelativeVelocity(bs: seq<Body>, i: nat, j: nat, n: Vec2, e: real)
    requires TwoBodies(bs, i, j) && Typed(bs, i, j) && i != j && !(SeparatingVelocity(bs, i, j, n) > 0.0)
    ensures var r := VelocityPass(bs, i, j, n, e);
      r[i].velocity.Sub(r[j].velocity) ==
      bs[i].velocity.Sub(bs[j].velocity).Add(Impulse(bs, i, j, n, e).Scale(InverseMassSum(bs, i, j)))
  {
    hide Impulse, SeparatingVelocity;
    var impulse := Impulse(bs, i, j, n, e);
    var a, b := 1.0 / bs[i].mass, 1.0 / bs[j].mass;
    assert impulse.Scale(a + b) == impulse.Scale(a).Add(impulse.Scale(b));
  }

  lemma ImpulseTimes(separating: real, e: real, k: real)
    requires k > 0.0
    ensures ImpulseSize(separating, e, k) * k == -separating * e - separating
  {
    DivTimes(-separating * e - separating, k);
  }

  lemma DotOfImpulse(u: Vec2, n: Vec2, size: real, k: real)
    ensures u.Add(n.Scale(size).Scale(k)).Dot(n) == u.Dot(n) + (size * k) * n.LengthSq()
  {}

  lemma TimesOne(a: real, b: real)
    requires b == 1.0
    ensures a * b == a
  {}

  /** An approaching pair leaves with the restitution times its old speed, a separating one is untouched:
      for every combination of dynamic and static bodies. */
  lemma RestitutionLaw(bs: seq<Body>, i: nat, j: nat, n: Vec2, e: real)
    requires TwoBodies(bs, i, j) && Typed(bs, i, j) && i != j && n.LengthSq() == 1.0
    ensures var separating := SeparatingVelocity(bs, i, j, n);
      SeparatingVelocity(VelocityPass(bs, i, j, n, e), i, j, n) ==
      if separating > 0.0 then separating else -e * separating
  {
    hide SeparatingVelocity, Impulse, Push, Vec2.LengthSq;
    if !(SeparatingVelocity(bs, i, j, n) > 0.0) {
      Bounces(bs, i, j, n, e);
    }
  }

  lemma Bounces(bs: seq<Body>, i: nat, j: nat, n: Vec2, e: real)
    requires TwoBodies(bs, i, j) && Typed(bs, i, j) && i != j && n.LengthSq() == 1.0
    requires !(SeparatingVelocity(bs, i, j, n) > 0.0)
    ensures SeparatingVelocity(VelocityPass(bs, i, j, n, e), i, j, n) == -e * SeparatingVelocity(bs, i, j, n)
  {
    hide VelocityPass, Vec2.Dot, Vec2.Sub, Vec2.Add, Vec2.Scale, ImpulseSize, InverseMassSum, Vec2.LengthSq;
    var separating, k := SeparatingVelocity(bs, i, j, n), InverseMassSum(bs, i, j);
    var size := ImpulseSize(separating, e, k);
    RelativeVelocity(bs, i, j, n, e);
    ImpulseTimes(separating, e, k);
    DotOfImpulse(bs[i].velocity.Sub(bs[j].velocity), n, size, k);
    TimesOne(size * k, n.LengthSq());
  }

  /** What the separating velocity measures: how fast the distance of the bodies along the normal grows. */
  lemma SeparationRate(bs: seq<Body>, i: nat, j: nat, n: Vec2, dt: real)
    requires i < |bs| && j < |bs|
    ensures bs[i].position.Add(bs[i].velocity.Scale(dt)).Sub(bs[j].position.Add(bs[j].velocity.Scale(dt))).Dot(n) ==
            bs[i].position.Sub(bs[j].position).Dot(n) + SeparatingVelocity(bs, i, j, n) * dt
  {}

  lemma ZeroScale(a: real)
    ensures ZERO.Scale(a) == ZERO
  {}

  lemma ZeroPush(bs: seq<Body>, m: nat)
    requires m < |bs|
    ensures Push(bs, m, ZERO) == bs
  {
    assert bs[m].velocity.Add(ZERO) == bs[m].velocity;
  }

  lemma ZeroImpulse(bs: seq<Body>, i: nat, j: nat, n: Vec2, e: real)
    requires TwoBodies(bs, i, j) && SeparatingVelocity(bs, i, j, n) == 0.0
    ensures Impulse(bs, i, j, n, e) == ZERO
  {
    hide SeparatingVelocity, InverseMassSum;
    var k := InverseMassSum(bs, i, j);
    assert 0.0 / k == 0.0;
    assert -0.0 * e - 0.0 == 0.0;
  }

  lemma NoImpulse(bs: seq<Body>, i: nat, j: nat, n: Vec2, e: real)
    requires TwoBodies(bs, i, j) && Impulse(bs, i, j, n, e) == ZERO
    ensures VelocityPass(bs, i, j, n, e) == bs
  {
    hide SeparatingVelocity, Impulse, Vec2.Scale, Push, Vec2.Add;
    ZeroScale(1.0 / bs[i].mass);
    ZeroScale(1.0 / bs[j].mass);
    ZeroScale(-1.0);
    ZeroPush(bs, i);
    ZeroPush(bs, j);
  }

  /** A contact that was just resolved is not approaching any more: resolving its velocities again changes nothing. */
  lemma VelocityPassTwice(bs: seq<Body>, i: nat, j: nat, n: Vec2, e: real)
    requires TwoBodies(bs, i, j) && Typed(bs, i, j) && UnitOrZero(n) && 0.0 <= e
    ensures VelocityPass(VelocityPass(bs, i, j, n, e), i, j, n, e) == VelocityPass(bs, i, j, n, e)
  {
    hide SeparatingVelocity, Impulse, Push, Vec2.Scale, Vec2.LengthSq;
    var r := VelocityPass(bs, i, j, n, e);
    var separating := SeparatingVelocity(bs, i, j, n);
    if i == j || n == ZERO {
      SamePoint(r, i, j, n);
      ZeroImpulse(r, i, j, n, e);
      NoImpulse(r, i, j, n, e);
    } else if separating <= 0.0 {
      RestitutionLaw(bs, i, j, n, e);
      ProductNonNegative(e, -separating);
      assert SeparatingVelocity(r, i, j, n) == e * (-separating);
      if e * (-separating) == 0.0 {
        ZeroImpulse(r, i, j, n, e);
        NoImpulse(r, i, j, n, e);
      }
    }
  }

  lemma SamePoint(bs: seq<Body>, i: nat, j: nat, n: Vec2)
    requires i < |bs| && j < |bs| && (i == j || n == ZERO)
    ensures SeparatingVelocity(bs, i, j, n) == 0.0
  {}

  /** Polygons take part in physical contacts without effect. */
  lemma PolygonContactChangesNothing(len: Vec2 -> real, bs: seq<Body>, i: nat, s: Shape, ri: real, j: nat, t: Shape,
      rj: real)
    requires TwoBodies(bs, i, j) && (s.PolygonShape? || t.PolygonShape?)
    ensures Resolved(len, bs, i, s, ri, j, t, rj) == bs
  {
    hide VelocityPass, MixedRestitution, SeparatingVelocity, Impulse, ClosestInRectangle, Direction, Vec2.Add,
      Vec2.Sub, Vec2.Scale;
    SamePoint(bs, i, j, ZERO);
    ZeroImpulse(bs, i, j, ZERO, MixedRestitution(bs, i, j, ri, rj));
    NoImpulse(bs, i, j, ZERO, MixedRestitution(bs, i, j, ri, rj));
  }

  predicate SameVelocities(bs: seq<Body>, bs': seq<Body>) {
    |bs| == |bs'| && forall k :: 0 <= k < |bs| ==> bs[k].velocity == bs'[k].velocity
  }

  /** The velocity pass does not look at positions. */
  lemma VelocityPassIgnoresPositions(bs: seq<Body>, bs': seq<Body>, i: nat, j: nat, n: Vec2, e: real)
    requires TwoBodies(bs, i, j) && SameVelocities(bs, bs') && SameBodyKinds(bs, bs')
    ensures TwoBodies(bs', i, j)
    ensures SameVelocities(VelocityPass(bs, i, j, n, e), VelocityPass(bs', i, j, n, e))
  {
    hide Vec2.Add, Vec2.Scale, Vec2.Dot, Vec2.Sub, ImpulseSize;
  }

  /** The order in which a rectangle and a circle meet does not matter for the velocities, although one order
      runs the response twice. */
  lemma SwappedPairSameVelocities(len: Vec2 -> real, bs: seq<Body>, i: nat, rect: Rectangle, ri: real,
                                  j: nat, circle: Circle, rj: real)
    requires IsLength(len) && TwoBodies(bs, i, j) && Typed(bs, i, j) && 0.0 <= ri && 0.0 <= rj
    ensures SameVelocities(Resolved(len, bs, i, RectangleShape(rect), ri, j, CircleShape(circle), rj),
                           Resolved(len, bs, j, CircleShape(circle), rj, i, RectangleShape(rect), ri))
  {
    var s, t := RectangleShape(rect), CircleShape(circle);
    var touch := TouchOf(len, t, bs[j].position, s, bs[i].position);
    var e := MixedRestitution(bs, j, i, rj, ri);
    TouchNormal(len, t, bs[j].position, s, bs[i].position);
    MixInRange(bs, j, i, rj, ri);
    hide TouchOf, MixedRestitution, VelocityPass, PositionPass;
    var once := Respond(bs, j, i, touch, e);
    var v := VelocityPass(bs, j, i, touch.normal, e);
    VelocityPassTwice(bs, j, i, touch.normal, e);
    VelocityPassIgnoresPositions(v, once, j, i, touch.normal, e);
  }

  /** The mixed restitution lies between the restitutions of the two colliders, nearer to that of the heavier
      body: the distances are inversely proportional to the masses. */
  lemma MixInRange(bs: seq<Body>, i: nat, j: nat, ri: real, rj: real)
    requires TwoBodies(bs, i, j) && 0.0 <= ri && 0.0 <= rj
    ensures 0.0 <= MixedRestitution(bs, i, j, ri, rj) <= Max(ri, rj)
    ensures var e := MixedRestitution(bs, i, j, ri, rj); bs[i].mass * (e - ri) == bs[j].mass * (rj - e)
  {
    var m, k := bs[i].mass, bs[j].mass;
    MixBetween(m, k, ri, rj, MixedRestitution(bs, i, j, ri, rj));
    MixLever(m, k, ri, rj, MixedRestitution(bs, i, j, ri, rj));
  }

  lemma MixLever(m: real, k: real, r: real, s: real, e: real)
    requires m > 0.0 && k > 0.0 && e == (m * r + k * s) / (m + k)
    ensures m * (e - r) == k * (s - e)
  {
    DivTimes(m * r + k * s, m + k);
    assert m * (e - r) - k * (s - e) == e * (m + k) - (m * r + k * s);
  }

  lemma MixBetween(m: real, k: real, r: real, s: real, e: real)
    requires m > 0.0 && k > 0.0 && 0.0 <= r && 0.0 <= s && e == (m * r + k * s) / (m + k)
    ensures 0.0 <= e <= Max(r, s)
  {
    var top := Max(r, s);
    ProductNonNegative(m, r);
    ProductNonNegative(k, s);
    DivTimes(m * r + k * s, m + k);
    DivSign(m * r + k * s, m + k, e);
    MulMonotone(r, top, m);
    MulMonotone(s, top, k);
    if e > top {
      ProductPositive(e - top, m + k, e * (m + k) - top * (m + k));
    }
  }

  // ------------------------------------------------------- what each body takes of a contact

  /** Dividing `p` by inverse mass gives each body the part that the mass of the other is of both masses. */
  lemma DividedByMass(m: real, k: real, a: real, b: real, c: real, p: real)
    requires a * m == 1.0 && b * k == 1.0 && c * (a + b) == p
    ensures (c * a) * (m + k) == p * k && (c * b) * (m + k) == p * m
  {
    assert p * k == (c * (a + b)) * k == c * (a * k) + c * (b * k);
    assert p * m == (c * (a + b)) * m == c * (a * m) + c * (b * m);
    assert (c * a) * (m + k) == c * (a * m) + c * (a * k);
    assert (c * b) * (m + k) == c * (b * m) + c * (b * k);
  }

  lemma ScaleTwice(n: Vec2, c: real, a: real)
    ensures n.Scale(c).Scale(a) == n.Scale(c * a)
  {
    assert (n.x * c) * a == n.x * (c * a);
    assert (n.y * c) * a == n.y * (c * a);
  }

  lemma ScaleBackwards(v: Vec2, p: Vec2)
    ensures p.Add(v.Scale(-1.0)) == p.Sub(v)
  {}

  /** `own` and `others` are what falls to the first and to the second of two masses. */
  predicate Shares(m: real, k: real, p: real, own: real, others: real) {
    own * (m + k) == p * k && others * (m + k) == p * m
  }

  lemma SharesOf(m: real, k: real, c: real, p: real, n: Vec2) returns (own: real, others: real)
    requires m > 0.0 && k > 0.0 && c * (1.0 / m + 1.0 / k) == p
    ensures Shares(m, k, p, own, others)
    ensures n.Scale(c).Scale(1.0 / m) == n.Scale(own) && n.Scale(c).Scale(1.0 / k) == n.Scale(others)
  {
    hide Vec2.Scale;
    var a, b := 1.0 / m, 1.0 / k;
    own, others := c * a, c * b;
    Inverse(m, a);
    Inverse(k, b);
    DividedByMass(m, k, a, b, c, p);
    ScaleTwice(n, c, a);
    ScaleTwice(n, c, b);
  }

  /** Only dynamic bodies are moved. Each takes the part of the depth that the mass of the other is of both masses,
      the first along the normal and the second against it. */
  lemma PositionShares(bs: seq<Body>, i: nat, j: nat, n: Vec2, p: real) returns (own: real, others: real)
    requires TwoBodies(bs, i, j) && i != j && p > 0.0
    ensures Shares(bs[i].mass, bs[j].mass, p, own, others)
    ensures var r := PositionPass(bs, i, j, n, p);
      && r[i].position == (if bs[i].bodyType == DYNAMIC then bs[i].position.Add(n.Scale(own)) else bs[i].position)
      && r[j].position == (if bs[j].bodyType == DYNAMIC then bs[j].position.Sub(n.Scale(others)) else bs[j].position)
  {
    hide Vec2.Scale, Vec2.Add, Vec2.Sub;
    var c := p / InverseMassSum(bs, i, j);
    DivTimes(p, InverseMassSum(bs, i, j));
    own, others := SharesOf(bs[i].mass, bs[j].mass, c, p, n);
    ScaleBackwards(n.Scale(others), bs[j].position);
  }

  lemma OthersStand(bs: seq<Body>, i: nat, j: nat, n: Vec2, p: real, k: nat)
    requires TwoBodies(bs, i, j) && k < |bs| && bs[k].bodyType != DYNAMIC
    ensures PositionPass(bs, i, j, n, p)[k] == bs[k]
  {
    hide Vec2.Scale, Vec2.Add;
  }

  /** An approaching pair changes its velocities along the normal only. The speed `(1 + e) * approach` is divided by
      the masses like a depth, but a static body leaves its part to the other body. */
  lemma VelocityShares(bs: seq<Body>, i: nat, j: nat, n: Vec2, e: real) returns (own: real, others: real)
    requires TwoBodies(bs, i, j) && i != j && SeparatingVelocity(bs, i, j, n) <= 0.0
    ensures Shares(bs[i].mass, bs[j].mass, -(1.0 + e) * SeparatingVelocity(bs, i, j, n), own, others)
    ensures var r := VelocityPass(bs, i, j, n, e);
      && r[i].velocity == bs[i].velocity
           .Add(if bs[i].bodyType == DYNAMIC then n.Scale(own) else ZERO)
           .Add(if bs[j].bodyType == STATIC then n.Scale(others) else ZERO)
      && r[j].velocity == bs[j].velocity
           .Sub(if bs[j].bodyType == DYNAMIC then n.Scale(others) else ZERO)
           .Sub(if bs[i].bodyType == STATIC then n.Scale(own) else ZERO)
  {
    hide Vec2.Scale, Vec2.Add, Vec2.Sub, SeparatingVelocity, ImpulseSize;
    var separating := SeparatingVelocity(bs, i, j, n);
    var c := ImpulseSize(separating, e, InverseMassSum(bs, i, j));
    ImpulseTimes(separating, e, InverseMassSum(bs, i, j));
    own, others := SharesOf(bs[i].mass, bs[j].mass, c, -(1.0 + e) * separating, n);
    var a, b := n.Scale(own), n.Scale(others);
    NothingAdded(bs[i].velocity);
    NothingAdded(bs[i].velocity.Add(a));
    NothingAdded(bs[j].velocity);
    NothingAdded(bs[j].velocity.Sub(b));
    ScaleBackwards(b, bs[j].velocity);
    ScaleBackwards(a, bs[j].velocity);
    ScaleBackwards(a, bs[j].velocity.Sub(b));
  }

  lemma NothingAdded(v: Vec2)
    ensures v.Add(ZERO) == v && v.Sub(ZERO) == v
  {}

  // ------------------------------------------------------------------ the whole contact

  /** Only the two bodies change, and of those only the dynamic ones move. */
  lemma ResolvedOthers(len: Vec2 -> real, bs: seq<Body>, i: nat, s: Shape, ri: real, j: nat, t: Shape, rj: real, k: nat)
    requires TwoBodies(bs, i, j) && k < |bs|
    ensures var r := Resolved(len, bs, i, s, ri, j, t, rj);
      && (k != i && k != j ==> r[k] == bs[k])
      && (bs[k].bodyType != DYNAMIC ==> r[k].position == bs[k].position)
  {
    hide TouchOf, MixedRestitution, VelocityPass, PositionPass;
    if s.RectangleShape? && t.CircleShape? {
      var touch, e := TouchOf(len, t, bs[j].position, s, bs[i].position), MixedRestitution(bs, j, i, rj, ri);
      RespondOthers(bs, j, i, touch, e, k);
      RespondOthers(Respond(bs, j, i, touch, e), j, i, touch, e, k);
    } else {
      var touch, e := TouchOf(len, s, bs[i].position, t, bs[j].position), MixedRestitution(bs, i, j, ri, rj);
      RespondOthers(bs, i, j, touch, e, k);
    }
  }

  lemma RespondOthers(bs: seq<Body>, i: nat, j: nat, touch: Touch, e: real, k: nat)
    requires TwoBodies(bs, i, j) && k < |bs|
    ensures k != i && k != j ==> Respond(bs, i, j, touch, e)[k] == bs[k]
    ensures bs[k].bodyType != DYNAMIC ==> Respond(bs, i, j, touch, e)[k].position == bs[k].position
  {
    hide VelocityPass, PositionPass;
    if bs[k].bodyType != DYNAMIC {
      OthersStand(VelocityPass(bs, i, j, touch.normal, e), i, j, touch.normal, touch.penetration, k);
    }
  }

  /** `Contact::Resolve` on circles and rectangles: afterwards the bodies separate along the measured normal with the
      restitution times their old approach, where the restitution is the mean of the two weighted by mass. */
  lemma ResolvedBounces(len: Vec2 -> real, bs: seq<Body>, i: nat, s: Shape, ri: real, j: nat, t: Shape, rj: real)
    returns (e: real)
    requires IsLength(len) && TwoBodies(bs, i, j) && Typed(bs, i, j) && i != j && 0.0 <= ri && 0.0 <= rj
    requires !s.PolygonShape? && !t.PolygonShape?
    ensures 0.0 <= e && e * (bs[i].mass + bs[j].mass) == bs[i].mass * ri + bs[j].mass * rj
    ensures var r := Resolved(len, bs, i, s, ri, j, t, rj);
      var n := MeasuredTouch(len, s, bs[i].position, t, bs[j].position).normal;
      var x, y := if Swapped(s, t) then j else i, if Swapped(s, t) then i else j;
      var separating := SeparatingVelocity(bs, x, y, n);
      n.LengthSq() == 1.0 &&
      SeparatingVelocity(r, x, y, n) == if separating > 0.0 then separating else -e * separating
  {
    hide TouchOf, MixedRestitution, VelocityPass, PositionPass, SeparatingVelocity, Vec2.LengthSq, IsLength, Respond;
    MeasuredUnit(len, s, bs[i].position, t, bs[j].position);
    if s.RectangleShape? && t.CircleShape? {
      e := MixIs(bs, j, i, rj, ri);
      var touch := TouchOf(len, t, bs[j].position, s, bs[i].position);
      RestitutionLaw(bs, j, i, touch.normal, e);
      SwappedPairSameVelocities(len, bs, i, s.rect, ri, j, t.circle, rj);
      OnePassVelocities(bs, j, i, touch, e);
      SameSeparation(Resolved(len, bs, i, s, ri, j, t, rj), VelocityPass(bs, j, i, touch.normal, e), j, i,
                     touch.normal);
    } else {
      e := MixIs(bs, i, j, ri, rj);
      var touch := TouchOf(len, s, bs[i].position, t, bs[j].position);
      RestitutionLaw(bs, i, j, touch.normal, e);
      OnePassVelocities(bs, i, j, touch, e);
      SameSeparation(Resolved(len, bs, i, s, ri, j, t, rj), VelocityPass(bs, i, j, touch.normal, e), i, j,
                     touch.normal);
    }
  }

  lemma MeasuredUnit(len: Vec2 -> real, s: Shape, p: Vec2, t: Shape, q: Vec2)
    requires IsLength(len) && !s.PolygonShape? && !t.PolygonShape?
    ensures MeasuredTouch(len, s, p, t, q).normal.LengthSq() == 1.0
  {
    hide Direction, Vec2.Add, Vec2.Sub, Vec2.Scale, ClosestInRectangle;
    match (s, t) {
      case (CircleShape(a), CircleShape(b)) =>
        DirectionIsUnit(len, p.Add(a.center).Sub(q).Sub(b.center));
      case (CircleShape(a), RectangleShape(b)) =>
        DirectionIsUnit(len, p.Add(a.center).Sub(ClosestInRectangle(b.Move(q), p.Add(a.center))));
      case (RectangleShape(a), CircleShape(b)) =>
        DirectionIsUnit(len, q.Add(b.center).Sub(ClosestInRectangle(a.Move(p), q.Add(b.center))));
      case (RectangleShape(_), RectangleShape(_)) =>
    }
  }

  lemma MixIs(bs: seq<Body>, i: nat, j: nat, ri: real, rj: real) returns (e: real)
    requires TwoBodies(bs, i, j) && 0.0 <= ri && 0.0 <= rj
    ensures e == MixedRestitution(bs, i, j, ri, rj) && 0.0 <= e
    ensures e * (bs[i].mass + bs[j].mass) == bs[i].mass * ri + bs[j].mass * rj
  {
    e := MixedRestitution(bs, i, j, ri, rj);
    DivTimes(bs[i].mass * ri + bs[j].mass * rj, bs[i].mass + bs[j].mass);
    MixInRange(bs, i, j, ri, rj);
  }

  lemma OnePassVelocities(bs: seq<Body>, i: nat, j: nat, touch: Touch, e: real)
    requires TwoBodies(bs, i, j)
    ensures SameVelocities(Respond(bs, i, j, touch, e), VelocityPass(bs, i, j, touch.normal, e))
  {
    hide VelocityPass, PositionPass;
  }

  lemma SameSeparation(bs: seq<Body>, bs': seq<Body>, i: nat, j: nat, n: Vec2)
    requires SameVelocities(bs, bs') && i < |bs| && j < |bs|
    ensures SeparatingVelocity(bs, i, j, n) == SeparatingVelocity(bs', i, j, n)
  {}
}
