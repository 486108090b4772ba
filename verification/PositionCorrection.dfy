/** How far apart one response moves two bodies, and when they end exactly touching. */
module PositionCorrection {
  import opened RealArith
  import opened Geometry
  import opened NarrowPhase
  import opened Contacts
  import opened ContactLaws

  // --------------------------------------------------------- the effect on the positions

  /** The inverse masses of the bodies that the correction moves. */
  function MovableInverse(bs: seq<Body>, i: nat, j: nat): real
    requires TwoBodies(bs, i, j)
  {
    (if bs[i].bodyType == DYNAMIC then 1.0 / bs[i].mass else 0.0) +
    (if bs[j].bodyType == DYNAMIC then 1.0 / bs[j].mass else 0.0)
  }

  /** The distance by which a correction of depth `p` separates the pair along the normal. */
  function Slide(bs: seq<Body>, i: nat, j: nat, p: real): real
    requires TwoBodies(bs, i, j)
  {
    (p / InverseMassSum(bs, i, j)) * MovableInverse(bs, i, j)
  }

  lemma PositionPassSlides(bs: seq<Body>, i: nat, j: nat, n: Vec2, p: real)
    requires TwoBodies(bs, i, j) && i != j && p > 0.0
    ensures var r := PositionPass(bs, i, j, n, p);
      r[i].position.Sub(r[j].position) == bs[i].position.Sub(bs[j].position).Add(n.Scale(Slide(bs, i, j, p)))
  {
    hide InverseMassSum, Vec2.Scale, Vec2.Add, Vec2.Sub;
    var c := p / InverseMassSum(bs, i, j);
    var x := if bs[i].bodyType == DYNAMIC then 1.0 / bs[i].mass else 0.0;
    var y := if bs[j].bodyType == DYNAMIC then 1.0 / bs[j].mass else 0.0;
    var move := n.Scale(c);
    NoShift(bs[i].position, move);
    NoShift(bs[j].position, move);
    var r := PositionPass(bs, i, j, n, p);
    assert r[i].position == bs[i].position.Add(move.Scale(x));
    assert r[j].position == bs[j].position.Add(move.Scale(y).Scale(-1.0));
    MovedApart(bs[i].position, bs[j].position, n, c, x, y, Slide(bs, i, j, p));
  }

  lemma NoShift(p: Vec2, move: Vec2)
    ensures p.Add(move.Scale(0.0)) == p && p.Add(move.Scale(0.0).Scale(-1.0)) == p
  {
    hide Vec2.Scale;
    ScaleByZero(move);
    ZeroScale(-1.0);
  }

  lemma ScaleByZero(v: Vec2)
    ensures v.Scale(0.0) == ZERO
  {}

  lemma MovedApart(p: Vec2, q: Vec2, n: Vec2, c: real, x: real, y: real, slide: real)
    requires slide == c * (x + y)
    ensures p.Add(n.Scale(c).Scale(x)).Sub(q.Add(n.Scale(c).Scale(y).Scale(-1.0))) == p.Sub(q).Add(n.Scale(slide))
  {}

  /** The whole depth is corrected exactly when both bodies are dynamic, and never more than it. */
  lemma SlideRange(bs: seq<Body>, i: nat, j: nat, p: real)
    requires TwoBodies(bs, i, j) && p > 0.0
    ensures 0.0 <= Slide(bs, i, j, p) <= p
    ensures Slide(bs, i, j, p) == p <==> bs[i].bodyType == DYNAMIC && bs[j].bodyType == DYNAMIC
  {
    var k, d := InverseMassSum(bs, i, j), MovableInverse(bs, i, j);
    var a, b := 1.0 / bs[i].mass, 1.0 / bs[j].mass;
    DivSign(1.0, bs[i].mass, a);
    DivSign(1.0, bs[j].mass, b);
    DivTimes(p, k);
    DivSign(p, k, p / k);
    SlideBounds(p, k, d, p / k, (p / k) * d);
  }

  lemma SlideBounds(p: real, k: real, d: real, c: real, slide: real)
    requires p > 0.0 && k > 0.0 && 0.0 <= d <= k && c > 0.0 && c * k == p && slide == c * d
    ensures 0.0 <= slide <= p && (slide == p <==> d == k)
  {
    ProductNonNegative(c, d);
    MulMonotone(d, k, c);
    if d < k {
      ProductPositive(c, k - d, p - slide);
    }
  }

  /** The correction keeps the mass-weighted centre of two dynamic bodies. */
  lemma CentreOfMassKept(bs: seq<Body>, i: nat, j: nat, n: Vec2, p: real)
    requires TwoBodies(bs, i, j) && i != j && bs[i].bodyType == DYNAMIC && bs[j].bodyType == DYNAMIC
    ensures var r := PositionPass(bs, i, j, n, p);
      r[i].position.Scale(r[i].mass).Add(r[j].position.Scale(r[j].mass)) ==
      bs[i].position.Scale(bs[i].mass).Add(bs[j].position.Scale(bs[j].mass))
  {
    if p > 0.0 {
      hide InverseMassSum, Vec2.Scale, Vec2.Add;
      var move := n.Scale(p / InverseMassSum(bs, i, j));
      var a, b := 1.0 / bs[i].mass, 1.0 / bs[j].mass;
      Inverse(bs[i].mass, a);
      Inverse(bs[j].mass, b);
      ShiftedWeight(bs[i].position, bs[i].mass, move, a);
      ShiftedWeight(bs[j].position, bs[j].mass, move.Scale(-1.0), b);
      ScalesCommute(move, b);
      CancelOpposite(bs[i].position.Scale(bs[i].mass), bs[j].position.Scale(bs[j].mass), move);
    }
  }

  lemma ScalesCommute(v: Vec2, k: real)
    ensures v.Scale(k).Scale(-1.0) == v.Scale(-1.0).Scale(k)
  {}

  lemma CancelOpposite(p: Vec2, q: Vec2, v: Vec2)
    ensures p.Add(v).Add(q.Add(v.Scale(-1.0))) == p.Add(q)
  {}

  lemma ShiftedWeight(p: Vec2, m: real, d: Vec2, a: real)
    requires a * m == 1.0
    ensures p.Add(d.Scale(a)).Scale(m) == p.Scale(m).Add(d)
  {
    assert (d.x * a) * m == d.x * (a * m);
    assert (d.y * a) * m == d.y * (a * m);
  }

  // ------------------------------------------------- the touch after sliding apart by `c`

  /** Going on along the direction of `delta` adds to its length; the zero vector has the direction `UP`. */
  lemma LengthAlong(len: Vec2 -> real, delta: Vec2, c: real)
    requires IsLength(len) && c >= 0.0
    ensures len(delta.Add(Direction(len, delta).Scale(c))) == len(delta) + c
  {
    hide Direction, Vec2.Add, Vec2.Scale, Vec2.LengthSq;
    var n, d := Direction(len, delta), len(delta);
    UnitDirection(len, delta);
    AddScales(n, d, c);
    ScaledLength(len, n, d + c);
  }

  lemma UnitDirection(len: Vec2 -> real, delta: Vec2)
    requires IsLength(len)
    ensures Direction(len, delta).LengthSq() == 1.0 && Direction(len, delta).Scale(len(delta)) == delta
  {
    DirectionIsUnit(len, delta);
    if len(delta) <= 0.0 { NoLength(len, delta); }
  }

  lemma AddScales(n: Vec2, d: real, c: real)
    ensures n.Scale(d).Add(n.Scale(c)) == n.Scale(d + c)
  {}

  lemma ScaledLength(len: Vec2 -> real, n: Vec2, k: real)
    requires IsLength(len) && n.LengthSq() == 1.0 && k >= 0.0
    ensures len(n.Scale(k)) == k
  {
    var v := n.Scale(k);
    assert v.LengthSq() == (k * k) * n.LengthSq();
    SquareMonotone(len(v), k);
  }

  lemma NoLength(len: Vec2 -> real, delta: Vec2)
    requires IsLength(len) && len(delta) <= 0.0
    ensures len(delta) == 0.0 && delta == ZERO && Direction(len, delta) == UP
  {
    assert len(delta) * len(delta) == delta.LengthSq();
    if delta != ZERO { SquarePositive(delta); }
  }

  /** Moving away from a rectangle along the shortest line to it keeps the nearest point. */
  lemma ClampAlong(x: real, lo: real, hi: real, k: real)
    requires k >= 0.0
    ensures Clamp(x + k * (x - Clamp(x, lo, hi)), lo, hi) == Clamp(x, lo, hi)
  {
    var d := x - Clamp(x, lo, hi);
    if d >= 0.0 {
      ProductNonNegative(k, d);
    } else {
      ProductNonNegative(k, -d);
    }
  }

  lemma ClosestAlong(r: Rectangle, p: Vec2, k: real)
    requires k >= 0.0
    ensures ClosestInRectangle(r, p.Add(p.Sub(ClosestInRectangle(r, p)).Scale(k))) == ClosestInRectangle(r, p)
  {
    ClampAlong(p.x, r.minBound.x, r.maxBound.x, k);
    ClampAlong(p.y, r.minBound.y, r.maxBound.y, k);
  }

  /** The pairs of kinds that are measured in this order; the others leave normal and depth at zero. */
  predicate Measured(s: Shape, t: Shape) {
    (s.CircleShape? && t.CircleShape?) || (!s.PolygonShape? && t.RectangleShape?)
  }

  /** How far the centre of a circle is below the top of a rectangle. */
  function Headroom(a: Circle, p: Vec2, b: Rectangle, q: Vec2): real {
    Max(b.minBound.y, b.maxBound.y) + q.y - p.y - a.center.y
  }

  /** A circle whose centre is inside the rectangle, below the top: its normal points up, whatever side is near. */
  predicate Sunk(s: Shape, p: Vec2, t: Shape, q: Vec2): (r: bool)
    ensures r ==> s.CircleShape? && t.RectangleShape?
  {
    && s.CircleShape? && t.RectangleShape?
    && ClosestInRectangle(t.rect.Move(q), p.Add(s.circle.center)) == p.Add(s.circle.center)
    && Headroom(s.circle, p, t.rect, q) > 0.0
  }

  /** The depth that is left when the pair has slid apart by `c`: a sunk circle has to leave the rectangle first. */
  function DepthAfter(len: Vec2 -> real, s: Shape, p: Vec2, t: Shape, q: Vec2, c: real): real {
    if Sunk(s, p, t, q) then s.circle.radius - Max(0.0, c - Headroom(s.circle, p, t.rect, q))
    else TouchOf(len, s, p, t, q).penetration - c
  }

  /** Only the difference of the positions matters. */
  lemma TouchTranslated(len: Vec2 -> real, s: Shape, p: Vec2, t: Shape, q: Vec2)
    ensures TouchOf(len, s, p, t, q) == TouchOf(len, s, p.Sub(q), t, ZERO)
    ensures forall c :: DepthAfter(len, s, p, t, q, c) == DepthAfter(len, s, p.Sub(q), t, ZERO, c)
  {
    match (s, t) {
      case (CircleShape(a), CircleShape(b)) =>
        assert p.Add(a.center).Sub(q).Sub(b.center) == p.Sub(q).Add(a.center).Sub(ZERO).Sub(b.center);
      case (CircleShape(a), RectangleShape(b)) =>
        ClosestTranslated(b, p.Add(a.center), q);
        assert p.Sub(q).Add(a.center) == p.Add(a.center).Sub(q);
      case (RectangleShape(a), RectangleShape(b)) =>
        assert p.Add(a.Center()).Sub(q).Sub(b.Center()) == p.Sub(q).Add(a.Center()).Sub(ZERO).Sub(b.Center());
      case _ =>
    }
  }

  lemma ClosestTranslated(r: Rectangle, c: Vec2, q: Vec2)
    ensures c.Sub(ClosestInRectangle(r.Move(q), c)) == c.Sub(q).Sub(ClosestInRectangle(r.Move(ZERO), c.Sub(q)))
  {}

  /** Sliding the pair apart by `c` along the normal reduces the depth by exactly `c`, unless the circle is sunk. */
  lemma SlideReducesDepth(len: Vec2 -> real, s: Shape, p: Vec2, t: Shape, c: real)
    requires IsLength(len) && Measured(s, t) && 0.0 <= c
    requires s.RectangleShape? ==> c <= TouchOf(len, s, p, t, ZERO).penetration
    ensures var touch := TouchOf(len, s, p, t, ZERO);
      TouchOf(len, s, p.Add(touch.normal.Scale(c)), t, ZERO).penetration == DepthAfter(len, s, p, t, ZERO, c)
  {
    match (s, t) {
      case (CircleShape(a), CircleShape(b)) =>
        hide TouchOf, IsLength, Vec2.Scale;
        CirclesSlide(len, a, p, b, c);
      case (CircleShape(a), RectangleShape(b)) =>
        hide TouchOf, IsLength, Vec2.Scale, Vec2.Add, Vec2.Sub, ClosestInRectangle, Sunk;
        if len(p.Add(a.center).Sub(ClosestInRectangle(b.Move(ZERO), p.Add(a.center)))) > 0.0 {
          CircleRectangleSlides(len, a, p, b, c);
          OutsideNotSunk(len, a, p, b);
        } else {
          InsideSlides(len, a, p, b, c);
        }
      case (RectangleShape(a), RectangleShape(b)) =>
        hide IsLength;
    }
  }

  lemma CirclesSlide(len: Vec2 -> real, a: Circle, p: Vec2, b: Circle, c: real)
    requires IsLength(len) && 0.0 <= c
    ensures var touch := TouchOf(len, CircleShape(a), p, CircleShape(b), ZERO);
      TouchOf(len, CircleShape(a), p.Add(touch.normal.Scale(c)), CircleShape(b), ZERO).penetration ==
          touch.penetration - c
  {
    var delta := p.Add(a.center).Sub(ZERO).Sub(b.center);
    var n := Direction(len, delta);
    LengthAlong(len, delta, c);
    hide Direction, Vec2.Scale;
    assert p.Add(n.Scale(c)).Add(a.center).Sub(ZERO).Sub(b.center) == delta.Add(n.Scale(c));
  }

  lemma CircleRectangleSlides(len: Vec2 -> real, a: Circle, p: Vec2, b: Rectangle, c: real)
    requires IsLength(len) && 0.0 <= c
    requires len(p.Add(a.center).Sub(ClosestInRectangle(b.Move(ZERO), p.Add(a.center)))) > 0.0
    ensures var touch := TouchOf(len, CircleShape(a), p, RectangleShape(b), ZERO);
      TouchOf(len, CircleShape(a), p.Add(touch.normal.Scale(c)), RectangleShape(b), ZERO).penetration ==
          touch.penetration - c
  {
    var center := p.Add(a.center);
    var q := ClosestInRectangle(b.Move(ZERO), center);
    var delta := center.Sub(q);
    var n, d := Direction(len, delta), len(delta);
    DivSign(c, d, c / d);
    ClosestAlong(b.Move(ZERO), center, c / d);
    AlongByRatio(delta, c, d, c / d, n);
    LengthAlong(len, delta, c);
    hide Direction, Vec2.Scale, ClosestInRectangle;
    assert p.Add(n.Scale(c)).Add(a.center) == center.Add(n.Scale(c));
    assert center.Add(n.Scale(c)).Sub(q) == delta.Add(n.Scale(c));
  }

  lemma OutsideNotSunk(len: Vec2 -> real, a: Circle, p: Vec2, b: Rectangle)
    requires IsLength(len)
    requires len(p.Add(a.center).Sub(ClosestInRectangle(b.Move(ZERO), p.Add(a.center)))) > 0.0
    ensures !Sunk(CircleShape(a), p, RectangleShape(b), ZERO)
  {
    hide ClosestInRectangle, IsLength, Headroom;
    ZeroLength(len);
  }

  lemma ZeroLength(len: Vec2 -> real)
    requires IsLength(len)
    ensures len(ZERO) == 0.0
  {
    LengthUp(len, 0.0);
  }

  /** A centre inside the rectangle goes straight up. */
  lemma InsideSlides(len: Vec2 -> real, a: Circle, p: Vec2, b: Rectangle, c: real)
    requires IsLength(len) && 0.0 <= c
    requires len(p.Add(a.center).Sub(ClosestInRectangle(b.Move(ZERO), p.Add(a.center)))) <= 0.0
    ensures var s, t := CircleShape(a), RectangleShape(b);
      TouchOf(len, s, p.Add(TouchOf(len, s, p, t, ZERO).normal.Scale(c)), t, ZERO).penetration ==
      DepthAfter(len, s, p, t, ZERO, c)
  {
    hide IsLength, Direction, ClosestInRectangle, Vec2.Scale, Vec2.Add, Vec2.Sub, Rectangle.Move;
    var center := p.Add(a.center);
    var r := b.Move(ZERO);
    var room := Headroom(a, p, b, ZERO);
    NoLength(len, center.Sub(ClosestInRectangle(r, center)));
    var raised := center.Add(UP.Scale(c));
    SameSum(p, a.center, UP.Scale(c));
    NoDifference(center, ClosestInRectangle(r, center));
    RaisedGap(b, p, a, c);
    LengthUp(len, Max(0.0, c - room));
  }

  lemma SameSum(p: Vec2, q: Vec2, d: Vec2)
    ensures p.Add(d).Add(q) == p.Add(q).Add(d)
  {}

  lemma NoDifference(p: Vec2, q: Vec2)
    ensures p.Sub(q) == ZERO <==> p == q
  {}

  lemma RaisedGap(b: Rectangle, p: Vec2, a: Circle, c: real)
    requires 0.0 <= c && ClosestInRectangle(b.Move(ZERO), p.Add(a.center)) == p.Add(a.center)
    ensures var raised := p.Add(a.center).Add(UP.Scale(c));
      raised.Sub(ClosestInRectangle(b.Move(ZERO), raised)) == Vec2(0.0, Max(0.0, c - Headroom(a, p, b, ZERO)))
    ensures Headroom(a, p, b, ZERO) >= 0.0
  {}

  lemma LengthUp(len: Vec2 -> real, c: real)
    requires IsLength(len) && 0.0 <= c
    ensures len(Vec2(0.0, c)) == c
  {
    var v := Vec2(0.0, c);
    assert v.LengthSq() == c * c;
    SquareMonotone(len(v), c);
  }

  lemma AlongByRatio(delta: Vec2, c: real, d: real, k: real, n: Vec2)
    requires d > 0.0 && k == c / d && n == delta.Scale(1.0 / d)
    ensures n.Scale(c) == delta.Scale(k)
  {
    assert k == (1.0 / d) * c;
    assert (delta.x * (1.0 / d)) * c == delta.x * ((1.0 / d) * c);
    assert (delta.y * (1.0 / d)) * c == delta.y * ((1.0 / d) * c);
  }

  // ------------------------------------------------------------------ the whole contact

  lemma DepthMeansMeasured(len: Vec2 -> real, s: Shape, p: Vec2, t: Shape, q: Vec2)
    requires TouchOf(len, s, p, t, q).penetration > 0.0
    ensures Measured(s, t)
  {}

  /** What one response leaves of a positive depth: the bodies have slid apart by `Slide`. */
  lemma ResponseDepth(len: Vec2 -> real, bs: seq<Body>, i: nat, s: Shape, j: nat, t: Shape, e: real)
    requires IsLength(len) && TwoBodies(bs, i, j) && i != j
    requires TouchOf(len, s, bs[i].position, t, bs[j].position).penetration > 0.0
    ensures var touch := TouchOf(len, s, bs[i].position, t, bs[j].position);
      var r := Respond(bs, i, j, touch, e);
      TouchOf(len, s, r[i].position, t, r[j].position).penetration ==
      DepthAfter(len, s, bs[i].position, t, bs[j].position, Slide(bs, i, j, touch.penetration))
  {
    hide TouchOf, DepthAfter, VelocityPass, PositionPass, Measured;
    var touch := TouchOf(len, s, bs[i].position, t, bs[j].position);
    var v := VelocityPass(bs, i, j, touch.normal, e);
    var r := Respond(bs, i, j, touch, e);
    DepthMeansMeasured(len, s, bs[i].position, t, bs[j].position);
    PositionPassSlides(v, i, j, touch.normal, touch.penetration);
    SlideRange(v, i, j, touch.penetration);
    SameSlide(bs, v, i, j, touch.penetration);
    TouchTranslated(len, s, bs[i].position, t, bs[j].position);
    TouchTranslated(len, s, r[i].position, t, r[j].position);
    SlideReducesDepth(len, s, bs[i].position.Sub(bs[j].position), t, Slide(v, i, j, touch.penetration));
  }

  lemma SameSlide(bs: seq<Body>, bs': seq<Body>, i: nat, j: nat, p: real)
    requires TwoBodies(bs, i, j) && TwoBodies(bs', i, j)
    requires bs'[i].mass == bs[i].mass && bs'[j].mass == bs[j].mass
    requires bs'[i].bodyType == bs[i].bodyType && bs'[j].bodyType == bs[j].bodyType
    ensures Slide(bs', i, j, p) == Slide(bs, i, j, p)
  {}

  /** `Contact::Resolve` on an overlapping pair of dynamic bodies, in an order that is measured, leaves them exactly
      touching if and only if no circle is sunk; a sunk one is left at the smaller of its radius and its headroom. */
  lemma ResolvedTouches(len: Vec2 -> real, bs: seq<Body>, i: nat, s: Shape, ri: real, j: nat, t: Shape, rj: real)
    requires IsLength(len) && TwoBodies(bs, i, j) && i != j
    requires bs[i].bodyType == DYNAMIC && bs[j].bodyType == DYNAMIC
    requires TouchOf(len, s, bs[i].position, t, bs[j].position).penetration > 0.0
    ensures var r := Resolved(len, bs, i, s, ri, j, t, rj);
      var left := TouchOf(len, s, r[i].position, t, r[j].position).penetration;
      && (left == 0.0 <==> !Sunk(s, bs[i].position, t, bs[j].position))
      && (Sunk(s, bs[i].position, t, bs[j].position) ==>
           left == Min(s.circle.radius, Headroom(s.circle, bs[i].position, t.rect, bs[j].position)))
  {
    hide TouchOf, Respond, Slide, MixedRestitution, Sunk, Headroom, InverseMassSum;
    var e := MixedRestitution(bs, i, j, ri, rj);
    var depth := TouchOf(len, s, bs[i].position, t, bs[j].position).penetration;
    DepthMeansMeasured(len, s, bs[i].position, t, bs[j].position);
    ResponseDepth(len, bs, i, s, j, t, e);
    SlideRange(bs, i, j, depth);
    SunkDepth(len, s, bs[i].position, t, bs[j].position);
  }

  lemma SunkDepth(len: Vec2 -> real, s: Shape, p: Vec2, t: Shape, q: Vec2)
    requires IsLength(len)
    ensures Sunk(s, p, t, q) ==>
      TouchOf(len, s, p, t, q).penetration == s.circle.radius && Headroom(s.circle, p, t.rect, q) > 0.0
  {
    hide Direction, ClosestInRectangle, Headroom, Vec2.Add, Vec2.Sub, IsLength;
    if Sunk(s, p, t, q) {
      var c := p.Add(s.circle.center);
      NoDifference(c, ClosestInRectangle(t.rect.Move(q), c));
      ZeroLength(len);
    }
  }

  /** With the rectangle first the correction is applied twice: instead of touching, the dynamic pair ends
      apart by the original depth, or a sunk circle goes up by twice its radius. */
  lemma SwappedPairOvershoots(len: Vec2 -> real, bs: seq<Body>, i: nat, rect: Rectangle, ri: real,
                              j: nat, circle: Circle, rj: real)
    requires IsLength(len) && TwoBodies(bs, i, j) && i != j
    requires bs[i].bodyType == DYNAMIC && bs[j].bodyType == DYNAMIC
    requires TouchOf(len, CircleShape(circle), bs[j].position, RectangleShape(rect), bs[i].position).penetration > 0.0
    ensures var s, t := CircleShape(circle), RectangleShape(rect);
      var r := Resolved(len, bs, i, t, ri, j, s, rj);
      var depth := TouchOf(len, s, bs[j].position, t, bs[i].position).penetration;
      TouchOf(len, s, r[j].position, t, r[i].position).penetration ==
      if Sunk(s, bs[j].position, t, bs[i].position)
      then depth - Max(0.0, 2.0 * depth - Headroom(circle, bs[j].position, rect, bs[i].position))
      else -depth
  {
    hide TouchOf, DepthAfter, MixedRestitution, VelocityPass, PositionPass, Slide, Sunk, Headroom;
    var s, t := CircleShape(circle), RectangleShape(rect);
    var touch := TouchOf(len, s, bs[j].position, t, bs[i].position);
    var e, p := MixedRestitution(bs, j, i, rj, ri), touch.penetration;
    var once := Respond(bs, j, i, touch, e);
    var v0, v1 := VelocityPass(bs, j, i, touch.normal, e), VelocityPass(once, j, i, touch.normal, e);
    var r := Respond(once, j, i, touch, e);
    PositionPassSlides(v0, j, i, touch.normal, p);
    PositionPassSlides(v1, j, i, touch.normal, p);
    SlideRange(v0, j, i, p);
    SlideRange(v1, j, i, p);
    TouchTranslated(len, s, bs[j].position, t, bs[i].position);
    TouchTranslated(len, s, r[j].position, t, r[i].position);
    var d := bs[j].position.Sub(bs[i].position);
    AddTwice(d, touch.normal, p);
    assert r[j].position.Sub(r[i].position) == d.Add(touch.normal.Scale(2.0 * p));
    SlideReducesDepth(len, s, d, t, 2.0 * p);
    TwiceDepth(len, circle, bs[j].position, rect, bs[i].position);
  }

  lemma TwiceDepth(len: Vec2 -> real, a: Circle, p: Vec2, b: Rectangle, q: Vec2)
    requires IsLength(len)
    ensures var s, t := CircleShape(a), RectangleShape(b);
      var depth := TouchOf(len, s, p, t, q).penetration;
      DepthAfter(len, s, p, t, q, 2.0 * depth) ==
      if Sunk(s, p, t, q) then depth - Max(0.0, 2.0 * depth - Headroom(a, p, b, q)) else -depth
  {
    hide TouchOf, Sunk, Headroom;
    SunkDepth(len, CircleShape(a), p, RectangleShape(b), q);
  }

  lemma AddTwice(d: Vec2, n: Vec2, p: real)
    ensures d.Add(n.Scale(p)).Add(n.Scale(p)) == d.Add(n.Scale(2.0 * p))
  {}

  // --------------------------------------------------------------- depth and speed together

  /** The mean of two restitutions, weighted by mass. */
  predicate IsMean(e: real, m: real, r: real, m': real, r': real) {
    0.0 <= e && e * (m + m') == m * r + m' * r'
  }

  /** The measured depth that the contact of two dynamic bodies leaves: none, but for sunk circles and for a rectangle
      before a circle, which is corrected twice. */
  function DepthLeft(len: Vec2 -> real, s: Shape, p: Vec2, t: Shape, q: Vec2): real {
    if Swapped(s, t) then
      var depth := TouchOf(len, t, q, s, p).penetration;
      if Sunk(t, q, s, p) then depth - Max(0.0, 2.0 * depth - Headroom(t.circle, q, s.rect, p)) else -depth
    else if Sunk(s, p, t, q) then Min(s.circle.radius, Headroom(s.circle, p, t.rect, q))
    else 0.0
  }

  /** From `bs` to `r` the depth has come down to what is left, and the approach along the measured normal, a unit
      vector, has been turned round. */
  predicate Separated(len: Vec2 -> real, bs: seq<Body>, r: seq<Body>, i: nat, s: Shape, j: nat, t: Shape, e: real)
    requires i < |bs| == |r| && j < |bs|
  {
    var n := MeasuredTouch(len, s, bs[i].position, t, bs[j].position).normal;
    var x, y := if Swapped(s, t) then j else i, if Swapped(s, t) then i else j;
    var separating := SeparatingVelocity(bs, x, y, n);
    && MeasuredTouch(len, s, r[i].position, t, r[j].position).penetration ==
       DepthLeft(len, s, bs[i].position, t, bs[j].position)
    && n.LengthSq() == 1.0
    && SeparatingVelocity(r, x, y, n) == if separating > 0.0 then separating else -e * separating
  }

  lemma StandingStill(len: Vec2 -> real, bs: seq<Body>, i: nat, s: Shape, ri: real, j: nat, t: Shape, rj: real,
      k: nat)
    requires TwoBodies(bs, i, j) && k < |bs|
    requires MeasuredTouch(len, s, bs[i].position, t, bs[j].position).penetration <= 0.0
    ensures Resolved(len, bs, i, s, ri, j, t, rj)[k].position == bs[k].position
  {
    hide TouchOf, MixedRestitution, VelocityPass;
  }

  /** `Contact::Resolve` on two overlapping circles or rectangles, on two dynamic bodies. */
  lemma ContactSeparates(len: Vec2 -> real, bs: seq<Body>, i: nat, s: Shape, ri: real, j: nat, t: Shape, rj: real)
    returns (e: real)
    requires IsLength(len) && TwoBodies(bs, i, j) && i != j && 0.0 <= ri && 0.0 <= rj
    requires bs[i].bodyType == DYNAMIC && bs[j].bodyType == DYNAMIC && Solid(s) && Solid(t)
    requires Overlap(MoveShape(s, bs[i].position), MoveShape(t, bs[j].position))
    ensures IsMean(e, bs[i].mass, ri, bs[j].mass, rj)
    ensures Separated(len, bs, Resolved(len, bs, i, s, ri, j, t, rj), i, s, j, t, e)
  {
    hide TouchOf, Resolved, Overlap, MoveShape, IsLength, Sunk, Headroom, SeparatingVelocity, Vec2.LengthSq;
    var p, q := bs[i].position, bs[j].position;
    OverlapIffPenetration(len, s, p, t, q);
    e := ResolvedBounces(len, bs, i, s, ri, j, t, rj);
    if MeasuredTouch(len, s, p, t, q).penetration <= 0.0 {
      StandingStill(len, bs, i, s, ri, j, t, rj, i);
      StandingStill(len, bs, i, s, ri, j, t, rj, j);
      SunkDepth(len, s, p, t, q);
      SunkDepth(len, t, q, s, p);
    } else if Swapped(s, t) {
      SwappedPairOvershoots(len, bs, i, s.rect, ri, j, t.circle, rj);
    } else {
      ResolvedTouches(len, bs, i, s, ri, j, t, rj);
    }
  }
}
