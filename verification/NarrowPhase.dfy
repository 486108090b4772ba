/** What the overlap tests mean: each is compared with the set of points of the two shapes. */
module NarrowPhase {
  import opened Geometry
  import opened RealArith

  // ------------------------------------------------------------ convex combinations

  /** The partial sum of `w[i] * p[i]` over the first `k` vertices. */
  ghost function WeightedSum(w: seq<real>, p: seq<Vec2>, k: nat): Vec2
    requires k <= |w| && k <= |p|
  {
    if k == 0 then ZERO else WeightedSum(w, p, k - 1).Add(p[k - 1].Scale(w[k - 1]))
  }

  ghost function WeightTotal(w: seq<real>, k: nat): real
    requires k <= |w|
  {
    if k == 0 then 0.0 else WeightTotal(w, k - 1) + w[k - 1]
  }

  ghost predicate Weights(w: seq<real>, n: nat) {
    |w| == n && (forall i :: 0 <= i < n ==> w[i] >= 0.0) && WeightTotal(w, n) == 1.0
  }

  ghost predicate CombinationOf(w: seq<real>, p: Vertices, x: Vec2) {
    Weights(w, |p|) && WeightedSum(w, p, |p|) == x
  }

  /** `x` lies in the convex hull of the vertices. */
  ghost predicate InHull(p: Vertices, x: Vec2) {
    exists w: seq<real> :: CombinationOf(w, p, x)
  }

  ghost predicate PointOf(s: Shape, x: Vec2) {
    match s
    case CircleShape(c) => c.Contains(x)
    case RectangleShape(r) => r.Contains(x)
    case PolygonShape(vs) => InHull(vs, x)
  }

  ghost predicate SharePoint(s: Shape, t: Shape) {
    exists x :: PointOf(s, x) && PointOf(t, x)
  }

  /** A linear form that is at least `lo` on the vertices is at least `lo` times the weight on a partial sum. */
  lemma {:induction false} PartialBound(w: seq<real>, p: seq<Vec2>, n: Vec2, lo: real, k: nat)
    requires k <= |w| && k <= |p|
    requires forall i :: 0 <= i < |w| ==> w[i] >= 0.0
    requires forall i :: 0 <= i < |p| ==> p[i].Dot(n) >= lo
    ensures WeightedSum(w, p, k).Dot(n) >= lo * WeightTotal(w, k)
  {
    if k > 0 {
      PartialBound(w, p, n, lo, k - 1);
      var q, u := p[k - 1], w[k - 1];
      assert q.Scale(u).Dot(n) == u * q.Dot(n);
      assert u * q.Dot(n) >= u * lo;
      assert WeightedSum(w, p, k).Dot(n) == WeightedSum(w, p, k - 1).Dot(n) + q.Scale(u).Dot(n);
    }
  }

  /** A linear form is bounded on the hull by its values at the vertices. */
  lemma HullBound(p: Vertices, x: Vec2, n: Vec2, lo: real)
    requires InHull(p, x)
    requires forall i :: 0 <= i < |p| ==> p[i].Dot(n) >= lo
    ensures x.Dot(n) >= lo
  {
    var w :| CombinationOf(w, p, x);
    PartialBound(w, p, n, lo, |p|);
  }

  lemma Minimum(p: Vertices, n: Vec2) returns (i: nat)
    ensures i < |p| && forall k :: 0 <= k < |p| ==> p[i].Dot(n) <= p[k].Dot(n)
  {
    i := 0;
    for k := 1 to |p|
      invariant i < |p| && forall j :: 0 <= j < k ==> p[i].Dot(n) <= p[j].Dot(n)
    {
      if p[k].Dot(n) < p[i].Dot(n) { i := k; }
    }
  }

  /** One axis on which all of `p` lies strictly before all of `q` keeps the hulls apart. */
  lemma StrictlyBefore(n: Vec2, p: Vertices, q: Vertices, x: Vec2)
    requires forall a, b :: 0 <= a < |p| && 0 <= b < |q| ==> p[a].Dot(n) < q[b].Dot(n)
    requires InHull(p, x)
    ensures !InHull(q, x)
  {
    var m := n.Scale(-1.0);
    var b := Minimum(q, n);
    var a := Minimum(p, m);
    assert p[a].Dot(n) < q[b].Dot(n);
    assert p[a].Dot(m) == -p[a].Dot(n) && x.Dot(m) == -x.Dot(n);
    HullBound(p, x, m, p[a].Dot(m));
    if InHull(q, x) {
      HullBound(q, x, n, q[b].Dot(n));
    }
  }

  lemma SeparatesKeepsApart(n: Vec2, p: Vertices, q: Vertices, x: Vec2)
    requires Separates(n, p, q)
    ensures !(InHull(p, x) && InHull(q, x))
  {
    if InHull(p, x) && forall a, b :: 0 <= a < |p| && 0 <= b < |q| ==> p[a].Dot(n) < q[b].Dot(n) {
      StrictlyBefore(n, p, q, x);
    } else if InHull(q, x) && !forall a, b :: 0 <= a < |p| && 0 <= b < |q| ==> p[a].Dot(n) < q[b].Dot(n) {
      StrictlyBefore(n, q, p, x);
    }
  }

  /** Soundness of the separating axis test, for any two polygons, convex or not. */
  lemma PolygonsApart(p: Vertices, q: Vertices, x: Vec2)
    requires !PolygonsIntersect(p, q)
    ensures !(InHull(p, x) && InHull(q, x))
  {
    if i :| 0 <= i < |p| && Separates(EdgeNormal(p, i), p, q) {
      SeparatesKeepsApart(EdgeNormal(p, i), p, q, x);
    } else {
      var i :| 0 <= i < |q| && Separates(EdgeNormal(q, i), p, q);
      SeparatesKeepsApart(EdgeNormal(q, i), p, q, x);
    }
  }

  // ------------------------------------------------------------- circles and rectangles

  /** The triangle inequality in the squared form the tests use. */
  lemma TriangleSquared(u: Vec2, v: Vec2, a: real, b: real)
    requires 0.0 <= a && 0.0 <= b
    requires u.LengthSq() <= a * a && v.LengthSq() <= b * b
    ensures u.Sub(v).LengthSq() <= (a + b) * (a + b)
  {
    TriangleReals(u.x, u.y, v.x, v.y, a, b);
  }

  lemma TriangleReals(p: real, q: real, r: real, s: real, a: real, b: real)
    requires 0.0 <= a && 0.0 <= b
    requires p * p + q * q <= a * a && r * r + s * s <= b * b
    ensures (p - r) * (p - r) + (q - s) * (q - s) <= (a + b) * (a + b)
  {
    var d, u, v := p * r + q * s, p * p + q * q, r * r + s * s;
    LagrangeIdentity(p, q, r, s);
    SquareNonNegative(p * s - q * r);
    SquareNonNegative(r);
    SquareNonNegative(s);
    CauchySchwarz(d, u, v, a, b);
    assert (p - r) * (p - r) + (q - s) * (q - s) == u - 2.0 * d + v;
    assert (a + b) * (a + b) == a * a + 2.0 * (a * b) + b * b;
  }

  lemma CauchySchwarz(d: real, u: real, v: real, a: real, b: real)
    requires 0.0 <= a && 0.0 <= b && 0.0 <= v && u <= a * a && v <= b * b && d * d <= u * v
    ensures -d <= a * b
  {
    SquareNonNegative(a);
    MulMonotone(u, a * a, v);
    MulMonotone(v, b * b, a * a);
    ProductNonNegative(a, b);
    assert (a * a) * (b * b) == (a * b) * (a * b);
    SquareMonotone(Abs(d), a * b);
    assert Abs(d) * Abs(d) == d * d;
  }

  lemma LagrangeIdentity(p: real, q: real, r: real, s: real)
    ensures (p * r + q * s) * (p * r + q * s) + (p * s - q * r) * (p * s - q * r) == (p * p + q * q) * (r * r + s * s)
  {}

  lemma CirclesExact(a: Circle, b: Circle)
    ensures CirclesIntersect(a, b) <==> exists x :: a.Contains(x) && b.Contains(x)
  {
    if CirclesIntersect(a, b) {
      var x := CommonPointOfCircles(a, b);
    }
    forall x | a.Contains(x) && b.Contains(x) ensures CirclesIntersect(a, b) {
      CirclesWithCommonPoint(a, b, x);
    }
  }

  lemma CirclesWithCommonPoint(a: Circle, b: Circle, x: Vec2)
    requires a.Contains(x) && b.Contains(x)
    ensures CirclesIntersect(a, b)
  {
    var u, v := a.center.Sub(x), b.center.Sub(x);
    TriangleSquared(u, v, a.radius, b.radius);
    assert u.Sub(v) == a.center.Sub(b.center);
  }

  /** The point that divides the segment between the centres in the ratio of the radii. */
  lemma CommonPointOfCircles(a: Circle, b: Circle) returns (x: Vec2)
    requires CirclesIntersect(a, b)
    ensures a.Contains(x) && b.Contains(x)
  {
    hide Vec2.LengthSq, Vec2.Sub, Vec2.Add, Vec2.Scale, Circle.Contains;
    var total := a.radius + b.radius;
    if total == 0.0 {
      x := a.center;
      PointCircles(a, b);
    } else {
      var d, t := b.center.Sub(a.center), a.radius / total;
      x := a.center.Add(d.Scale(t));
      DivTimes(a.radius, total);
      SameDistance(a.center, b.center);
      DividesSegment(a, b, d, t, x);
    }
  }

  lemma SameDistance(p: Vec2, q: Vec2)
    ensures p.Sub(q).LengthSq() == q.Sub(p).LengthSq()
  {}

  /** Two disks of radius zero that intersect are one point. */
  lemma PointCircles(a: Circle, b: Circle)
    requires a.radius == b.radius == 0.0 && CirclesIntersect(a, b)
    ensures a.Contains(a.center) && b.Contains(a.center)
  {
    var d := a.center.Sub(b.center);
    if d != ZERO { SquarePositive(d); }
    assert a.center == b.center;
    InsideOwnDisk(a);
    InsideOwnDisk(b);
  }

  lemma DividesSegment(a: Circle, b: Circle, d: Vec2, t: real, x: Vec2)
    requires d == b.center.Sub(a.center) && x == a.center.Add(d.Scale(t))
    requires d.LengthSq() <= (a.radius + b.radius) * (a.radius + b.radius)
    requires t * (a.radius + b.radius) == a.radius
    ensures a.Contains(x) && b.Contains(x)
  {
    var total := a.radius + b.radius;
    assert (1.0 - t) * total == b.radius;
    ScaledInside(d, t, total, a.radius);
    ScaledInside(d, 1.0 - t, total, b.radius);
    assert a.center.Sub(x).LengthSq() == d.Scale(t).LengthSq();
    assert b.center.Sub(x) == d.Scale(1.0 - t);
  }

  lemma ScaledInside(d: Vec2, t: real, total: real, radius: real)
    requires d.LengthSq() <= total * total && t * total == radius
    ensures d.Scale(t).LengthSq() <= radius * radius
  {
    assert d.Scale(t).LengthSq() == d.LengthSq() * (t * t);
    SquareNonNegative(t);
    MulMonotone(d.LengthSq(), total * total, t * t);
    assert (total * total) * (t * t) == radius * radius;
  }

  lemma ClampNearest(x: real, lo: real, hi: real, y: real)
    requires lo <= y <= hi
    ensures (x - Clamp(x, lo, hi)) * (x - Clamp(x, lo, hi)) <= (x - y) * (x - y)
  {
    var d, e := Abs(x - Clamp(x, lo, hi)), Abs(x - y);
    assert d <= e;
    SquareMonotone(d, e);
  }

  /** Clamping to the interval between two bounds, in whichever order they come, gives its point nearest to `x`. */
  lemma ClampIsNearest(x: real, a: real, b: real, y: real)
    requires Min(a, b) <= y <= Max(a, b)
    ensures Min(a, b) <= Clamp(x, a, b) <= Max(a, b)
    ensures Abs(x - Clamp(x, a, b)) <= Abs(x - y)
    ensures Abs(x - y) == Abs(x - Clamp(x, a, b)) ==> y == Clamp(x, a, b)
  {}

  lemma ClosestInRectangleIsNearest(r: Rectangle, p: Vec2, q: Vec2)
    requires r.Contains(q)
    ensures r.Contains(ClosestInRectangle(r, p))
    ensures p.Sub(ClosestInRectangle(r, p)).LengthSq() <= p.Sub(q).LengthSq()
  {
    ClampNearest(p.x, r.minBound.x, r.maxBound.x, q.x);
    ClampNearest(p.y, r.minBound.y, r.maxBound.y, q.y);
  }

  /** Widening an interval by `rad` admits exactly the points within `rad` of it. */
  lemma WidenedInterval(x: real, lo: real, hi: real, rad: real)
    requires lo <= hi && 0.0 <= rad
    ensures lo - rad <= x <= hi + rad <==> Abs(x - Clamp(x, lo, hi)) <= rad
    ensures lo <= x <= hi <==> x == Clamp(x, lo, hi)
  {}

  lemma SumWithin(dx: real, dy: real, rad: real)
    requires 0.0 <= rad
    ensures dx * dx + dy * dy <= rad * rad ==> Abs(dx) <= rad && Abs(dy) <= rad
    ensures dx == 0.0 && Abs(dy) <= rad ==> dx * dx + dy * dy <= rad * rad
    ensures dy == 0.0 && Abs(dx) <= rad ==> dx * dx + dy * dy <= rad * rad
  {
    SquareNonNegative(dx);
    SquareNonNegative(dy);
    assert Abs(dx) * Abs(dx) == dx * dx && Abs(dy) * Abs(dy) == dy * dy;
    SquareMonotone(Abs(dx), rad);
    SquareMonotone(Abs(dy), rad);
  }

  /** The seven-part test is the distance test at the closest point. */
  lemma RectangleCircleByDistance(r: Rectangle, c: Circle)
    requires r.Ordered()
    ensures RectangleCircleIntersect(r, c) <==> c.Contains(ClosestInRectangle(r, c.center))
  {
    CornerImpliesNear(r, c, r.minBound);
    CornerImpliesNear(r, c, r.maxBound);
    CornerImpliesNear(r, c, Vec2(r.minBound.x, r.maxBound.y));
    CornerImpliesNear(r, c, Vec2(r.maxBound.x, r.minBound.y));
    WideOrTallImpliesNear(r, c);
    var q := ClosestInRectangle(r, c.center);
    if c.Contains(q) {
      NearImpliesSideOrCorner(r, c, q);
    }
  }

  lemma WideOrTallImpliesNear(r: Rectangle, c: Circle)
    requires r.Ordered()
    ensures r.Contains(c.center) || WideOrTall(r, c) ==> c.Contains(ClosestInRectangle(r, c.center))
  {
    var q := ClosestInRectangle(r, c.center);
    WidenedInterval(c.center.x, r.minBound.x, r.maxBound.x, c.radius);
    WidenedInterval(c.center.y, r.minBound.y, r.maxBound.y, c.radius);
    SumWithin(c.center.x - q.x, c.center.y - q.y, c.radius);
  }

  lemma NearImpliesSideOrCorner(r: Rectangle, c: Circle, q: Vec2)
    requires r.Ordered() && q == ClosestInRectangle(r, c.center)
    requires c.Contains(q)
    ensures WideOrTall(r, c) || q in r.Corners()
  {
    WidenedInterval(c.center.x, r.minBound.x, r.maxBound.x, c.radius);
    WidenedInterval(c.center.y, r.minBound.y, r.maxBound.y, c.radius);
    SumWithin(c.center.x - q.x, c.center.y - q.y, c.radius);
    var corners := r.Corners();
    assert forall k :: 0 <= k < 4 ==> corners[k] in corners;
    assert corners[0] == r.minBound && corners[1] == Vec2(r.minBound.x, r.maxBound.y);
    assert corners[2] == r.maxBound && corners[3] == Vec2(r.maxBound.x, r.minBound.y);
  }

  lemma CornerImpliesNear(r: Rectangle, c: Circle, q: Vec2)
    requires r.Contains(q)
    ensures c.Contains(q) ==> c.Contains(ClosestInRectangle(r, c.center))
  {
    ClosestInRectangleIsNearest(r, c.center, q);
  }

  lemma RectangleCircleExact(r: Rectangle, c: Circle)
    requires r.Ordered()
    ensures RectangleCircleIntersect(r, c) <==> exists x :: r.Contains(x) && c.Contains(x)
  {
    hide RectangleCircleIntersect, ClosestInRectangle, Circle.Contains, Rectangle.Contains;
    RectangleCircleByDistance(r, c);
    var q := ClosestInRectangle(r, c.center);
    assert r.Contains(q) by { ClosestInside(r, c.center); }
    if x :| r.Contains(x) && c.Contains(x) {
      NearestContained(r, c, x);
    }
  }

  lemma ClosestInside(r: Rectangle, p: Vec2)
    requires r.Ordered()
    ensures r.Contains(ClosestInRectangle(r, p))
  {}

  lemma NearestContained(r: Rectangle, c: Circle, x: Vec2)
    requires r.Contains(x) && c.Contains(x)
    ensures c.Contains(ClosestInRectangle(r, c.center))
  {
    hide ClosestInRectangle, Rectangle.Contains, Vec2.LengthSq;
    ClosestInRectangleIsNearest(r, c.center, x);
  }

  lemma RectanglesExact(a: Rectangle, b: Rectangle)
    requires a.Ordered() && b.Ordered()
    ensures RectanglesIntersect(a, b) <==> exists x :: a.Contains(x) && b.Contains(x)
  {
    if RectanglesIntersect(a, b) {
      var x := Vec2(Max(a.minBound.x, b.minBound.x), Max(a.minBound.y, b.minBound.y));
      assert a.Contains(x) && b.Contains(x);
    }
  }

  predicate Solid(s: Shape) {
    s.CircleShape? || (s.RectangleShape? && s.rect.Ordered())
  }

  /** For circles and rectangles `Overlap` is exactly "the shapes share a point". */
  lemma OverlapExact(s: Shape, t: Shape)
    requires Solid(s) && Solid(t)
    ensures Overlap(s, t) <==> SharePoint(s, t)
  {
    match (s, t) {
      case (CircleShape(a), CircleShape(b)) => CirclesExact(a, b);
      case (CircleShape(a), RectangleShape(b)) => RectangleCircleExact(b, a);
      case (RectangleShape(a), CircleShape(b)) => RectangleCircleExact(a, b);
      case (RectangleShape(a), RectangleShape(b)) => RectanglesExact(a, b);
    }
    if Overlap(s, t) {
      var x := CommonPoint(s, t);
      assert PointOf(s, x) && PointOf(t, x);
    }
    if SharePoint(s, t) {
      var x :| PointOf(s, x) && PointOf(t, x);
    }
  }

  lemma CommonPoint(s: Shape, t: Shape) returns (x: Vec2)
    requires Solid(s) && Solid(t) && Overlap(s, t)
    ensures PointOf(s, x) && PointOf(t, x)
  {
    match (s, t) {
      case (CircleShape(a), CircleShape(b)) => CirclesExact(a, b); x :| a.Contains(x) && b.Contains(x);
      case (CircleShape(a), RectangleShape(b)) => RectangleCircleExact(b, a); x :| b.Contains(x) && a.Contains(x);
      case (RectangleShape(a), CircleShape(b)) => RectangleCircleExact(a, b); x :| a.Contains(x) && b.Contains(x);
      case (RectangleShape(a), RectangleShape(b)) => RectanglesExact(a, b); x :| a.Contains(x) && b.Contains(x);
    }
  }

  // ------------------------------------------------------------- polygon against circle

  /** `x` lies on the closed segment between `a` and `b`. */
  ghost predicate OnSegment(a: Vec2, b: Vec2, x: Vec2) {
    exists t: real :: At(a, b, x, t)
  }

  predicate At(a: Vec2, b: Vec2, x: Vec2, t: real) { 0.0 <= t <= 1.0 && x == a.Add(b.Sub(a).Scale(t)) }

  /** `x` lies on the boundary: on the edge that ends in some vertex. */
  ghost predicate OnBoundary(p: Vertices, x: Vec2) {
    exists i: nat {:trigger Previous(i, |p|)} :: i < |p| && OnSegment(p[i], p[Previous(i, |p|)], x)
  }

  /** On the line through `a` and `b` the squared distance from `p` grows with the distance from the foot `f`. */
  lemma DistanceAlongLine(a: Vec2, d: Vec2, p: Vec2, f: real, t: real)
    requires f * d.LengthSq() == p.Sub(a).Dot(d)
    ensures p.Sub(a.Add(d.Scale(t))).LengthSq() ==
            p.Sub(a).LengthSq() - f * f * d.LengthSq() + (t - f) * (t - f) * d.LengthSq()
  {
    var u, v := p.Sub(a), p.Sub(a.Add(d.Scale(t)));
    assert v.x == u.x - d.x * t && v.y == u.y - d.y * t;
    LineReals(u.x, u.y, d.x, d.y, f, t, u.Dot(d), d.LengthSq(), v.x, v.y);
  }

  lemma LineReals(x: real, y: real, dx: real, dy: real, f: real, t: real, k: real, l: real, vx: real, vy: real)
    requires k == x * dx + y * dy && l == dx * dx + dy * dy && f * l == k
    requires vx == x - dx * t && vy == y - dy * t
    ensures vx * vx + vy * vy == x * x + y * y - f * f * l + (t - f) * (t - f) * l
  {
    AxisSquare(x, dx, t);
    AxisSquare(y, dy, t);
    assert vx * vx + vy * vy == x * x + y * y - 2.0 * (t * k) + (t * t) * l;
    assert t * k == t * (f * l);
  }

  lemma AxisSquare(x: real, d: real, t: real)
    ensures (x - d * t) * (x - d * t) == x * x - 2.0 * (t * (x * d)) + (t * t) * (d * d)
  {}

  lemma ClosestPointMinimises(a: Vec2, b: Vec2, p: Vec2, x: Vec2)
    requires a != b && OnSegment(a, b, x)
    ensures OnSegment(a, b, ClosestPointOnSegment(a, b, p))
    ensures p.Sub(ClosestPointOnSegment(a, b, p)).LengthSq() <= p.Sub(x).LengthSq()
  {
    var f := FootParameter(a, b, p);
    var c := if f <= 0.0 then 0.0 else if f >= 1.0 then 1.0 else f;
    PointOnSegmentAt(a, b, f, c);
    var t :| At(a, b, x, t);
    NearerOnLine(a, b.Sub(a), p, c, f, t);
  }

  lemma NearerOnLine(a: Vec2, d: Vec2, p: Vec2, c: real, f: real, t: real)
    requires 0.0 <= t <= 1.0 && d != ZERO
    requires f * d.LengthSq() == p.Sub(a).Dot(d)
    requires c == if f <= 0.0 then 0.0 else if f >= 1.0 then 1.0 else f
    ensures p.Sub(a.Add(d.Scale(c))).LengthSq() <= p.Sub(a.Add(d.Scale(t))).LengthSq()
  {
    hide Vec2.LengthSq, Vec2.Sub, Vec2.Add, Vec2.Scale, Vec2.Dot;
    DistanceAlongLine(a, d, p, f, c);
    DistanceAlongLine(a, d, p, f, t);
    SquarePositive(d);
    NearerParameter(c, f, t, d.LengthSq());
  }

  lemma PointOnSegmentAt(a: Vec2, b: Vec2, f: real, c: real)
    requires c == if f <= 0.0 then 0.0 else if f >= 1.0 then 1.0 else f
    ensures At(a, b, PointOnSegment(a, b, f), c)
  {
    assert a.Add(b.Sub(a).Scale(0.0)) == a;
    assert a.Add(b.Sub(a).Scale(1.0)) == b;
  }

  lemma NearerParameter(c: real, f: real, t: real, l: real)
    requires 0.0 <= t <= 1.0 && l > 0.0
    requires c == if f <= 0.0 then 0.0 else if f >= 1.0 then 1.0 else f
    ensures (c - f) * (c - f) * l <= (t - f) * (t - f) * l
  {
    var u, v := Abs(c - f), Abs(t - f);
    SquareMonotone(u, v);
    assert u * u == (c - f) * (c - f) && v * v == (t - f) * (t - f);
    MulMonotone((c - f) * (c - f), (t - f) * (t - f), l);
  }

  /** The test is true exactly when the disk meets the boundary, also for repeated vertices;
      a disk strictly inside a polygon is therefore not reported. */
  lemma PolygonCircleMeansBoundary(p: Vertices, c: Circle)
    ensures PolygonCircleIntersect(p, c) <==> exists x :: OnBoundary(p, x) && c.Contains(x)
  {
    if i :| 0 <= i < |p| && c.Contains(p[i]) {
      assert At(p[i], p[Previous(i, |p|)], p[i], 0.0);
      assert OnBoundary(p, p[i]);
    } else if i: nat {:trigger Previous(i, |p|)} :| i < |p| && EdgeHit(p[i], p[Previous(i, |p|)], c) {
      var a, b := p[i], p[Previous(i, |p|)];
      assert At(a, b, a, 0.0);
      ClosestPointMinimises(a, b, c.center, a);
      assert OnBoundary(p, ClosestPointOnSegment(a, b, c.center));
    }
    if x :| OnBoundary(p, x) && c.Contains(x) {
      var i: nat {:trigger Previous(i, |p|)} :| i < |p| && OnSegment(p[i], p[Previous(i, |p|)], x);
      var a, b := p[i], p[Previous(i, |p|)];
      if a == b {
        var t :| At(a, b, x, t);
        assert x == a;
      } else {
        ClosestPointMinimises(a, b, c.center, x);
        assert EdgeHit(a, b, c);
      }
    }
  }

  const SQUARE := Rectangle(ZERO, Vec2(8.0, 8.0))
  const INNER_DISK := Circle(Vec2(4.0, 4.0), 1.0)

  /** A disk inside a polygon is not reported. */
  lemma DiskInsidePolygonIsMissed()
    ensures SharePoint(PolygonShape(SQUARE.Corners()), CircleShape(INNER_DISK))
    ensures !Overlap(PolygonShape(SQUARE.Corners()), CircleShape(INNER_DISK))
  {
    hide Circle.Contains, PolygonCircleIntersect, InHull;
    RectangleInHull(SQUARE, INNER_DISK.center);
    InsideOwnDisk(INNER_DISK);
    assert PointOf(PolygonShape(SQUARE.Corners()), INNER_DISK.center);
    DiskMissesEdges();
  }

  lemma DiskMissesEdges()
    ensures !PolygonCircleIntersect(SQUARE.Corners(), INNER_DISK)
  {
    hide EdgeHit, Circle.Contains;
    OutsideUnitDisk(4.0, 4.0, 0.0, 0.0);
    OutsideUnitDisk(4.0, 4.0, 0.0, 8.0);
    OutsideUnitDisk(4.0, 4.0, 8.0, 8.0);
    OutsideUnitDisk(4.0, 4.0, 8.0, 0.0);
    EdgeMissed(0.0, 0.0, 8.0, 0.0, 4.0, 4.0, 0.5);
    EdgeMissed(0.0, 8.0, 0.0, 0.0, 4.0, 4.0, 0.5);
    EdgeMissed(8.0, 8.0, 0.0, 8.0, 4.0, 4.0, 0.5);
    EdgeMissed(8.0, 0.0, 8.0, 8.0, 4.0, 4.0, 0.5);
  }

  lemma InsideOwnDisk(c: Circle)
    ensures c.Contains(c.center)
  {
    SquareNonNegative(c.radius);
  }

  lemma OutsideUnitDisk(cx: real, cy: real, x: real, y: real)
    requires (cx - x) * (cx - x) + (cy - y) * (cy - y) > 1.0
    ensures !Circle(Vec2(cx, cy), 1.0).Contains(Vec2(x, y))
  {}

  /** The edge from `a` to `b` is nearest the centre at parameter `t`, and that point is outside. */
  lemma EdgeMissed(p: real, q: real, r: real, s: real, cx: real, cy: real, t: real)
    requires (p != r || q != s) && 0.0 < t < 1.0
    requires t * ((r - p) * (r - p) + (s - q) * (s - q)) == (cx - p) * (r - p) + (cy - q) * (s - q)
    requires (cx - (p + (r - p) * t)) * (cx - (p + (r - p) * t)) +
             (cy - (q + (s - q) * t)) * (cy - (q + (s - q) * t)) > 1.0
    ensures !EdgeHit(Vec2(p, q), Vec2(r, s), Circle(Vec2(cx, cy), 1.0))
  {
    var a, b, c := Vec2(p, q), Vec2(r, s), Circle(Vec2(cx, cy), 1.0);
    FootParameterIs(a, b, c.center, t);
    OutsideUnitDisk(cx, cy, p + (r - p) * t, q + (s - q) * t);
  }

  lemma FootParameterIs(a: Vec2, b: Vec2, p: Vec2, t: real)
    requires a != b && t * b.Sub(a).LengthSq() == p.Sub(a).Dot(b.Sub(a))
    ensures FootParameter(a, b, p) == t
  {
    SquarePositive(b.Sub(a));
    CancelFactor(FootParameter(a, b, p), t, b.Sub(a).LengthSq());
  }

  lemma CancelFactor(u: real, t: real, l: real)
    requires l > 0.0 && u * l == t * l
    ensures u == t
  {
    if u < t {
      ProductPositive(t - u, l, t * l - u * l);
    } else if t < u {
      ProductPositive(u - t, l, u * l - t * l);
    }
  }

  // ------------------------------------------------- no overlap test misses a common point

  lemma Fraction(x: real, lo: real, hi: real) returns (u: real)
    requires lo <= x <= hi
    ensures 0.0 <= u <= 1.0 && x == lo + u * (hi - lo)
  {
    u := if lo == hi then 0.0 else (x - lo) / (hi - lo);
    if lo < hi {
      DivTimes(x - lo, hi - lo);
      DivSign(x - lo, hi - lo, u);
      if u > 1.0 {
        ProductPositive(u - 1.0, hi - lo, x - hi);
      }
    }
  }

  lemma BilinearWeights(u: real, v: real, a: real, b: real, c: real, d: real) returns (w: seq<real>)
    requires 0.0 <= u <= 1.0 && 0.0 <= v <= 1.0
    ensures |w| == 4 && (forall i :: 0 <= i < 4 ==> w[i] >= 0.0)
    ensures w[0] + w[1] + w[2] + w[3] == 1.0
    ensures a * w[0] + a * w[1] + b * w[2] + b * w[3] == a + u * (b - a)
    ensures c * w[0] + d * w[1] + d * w[2] + c * w[3] == c + v * (d - c)
  {
    w := [(1.0 - u) * (1.0 - v), (1.0 - u) * v, u * v, u * (1.0 - v)];
    ProductNonNegative(1.0 - u, 1.0 - v);
    ProductNonNegative(1.0 - u, v);
    ProductNonNegative(u, v);
    ProductNonNegative(u, 1.0 - v);
  }

  /** Every point of a rectangle is a combination of its corners, with bilinear weights. */
  lemma RectangleInHull(r: Rectangle, x: Vec2)
    requires r.Contains(x)
    ensures InHull(r.Corners(), x)
  {
    hide Vec2.Scale, Vec2.Add, WeightedSum, WeightTotal;
    var w := CornerWeights(r, x);
    FourWeights(w, r.Corners());
    assert CombinationOf(w, r.Corners(), x);
  }

  lemma CornerWeights(r: Rectangle, x: Vec2) returns (w: seq<real>)
    requires r.Contains(x)
    ensures |w| == 4 && (forall i :: 0 <= i < 4 ==> w[i] >= 0.0) && w[0] + w[1] + w[2] + w[3] == 1.0
    ensures var p := r.Corners();
      p[0].Scale(w[0]).Add(p[1].Scale(w[1])).Add(p[2].Scale(w[2])).Add(p[3].Scale(w[3])) == x
  {
    hide Vec2.Scale, Vec2.Add;
    var u := Fraction(x.x, r.minBound.x, r.maxBound.x);
    var v := Fraction(x.y, r.minBound.y, r.maxBound.y);
    w := BilinearWeights(u, v, r.minBound.x, r.maxBound.x, r.minBound.y, r.maxBound.y);
    FourCorners(w, r, x);
  }

  lemma FourCorners(w: seq<real>, r: Rectangle, x: Vec2)
    requires |w| == 4
    requires r.minBound.x * w[0] + r.minBound.x * w[1] + r.maxBound.x * w[2] + r.maxBound.x * w[3] == x.x
    requires r.minBound.y * w[0] + r.maxBound.y * w[1] + r.maxBound.y * w[2] + r.minBound.y * w[3] == x.y
    ensures var p := r.Corners();
      p[0].Scale(w[0]).Add(p[1].Scale(w[1])).Add(p[2].Scale(w[2])).Add(p[3].Scale(w[3])) == x
  {}

  lemma FourWeights(w: seq<real>, p: seq<Vec2>)
    requires |w| == 4 && |p| == 4
    ensures WeightTotal(w, 4) == w[0] + w[1] + w[2] + w[3]
    ensures WeightedSum(w, p, 4) == p[0].Scale(w[0]).Add(p[1].Scale(w[1])).Add(p[2].Scale(w[2])).Add(p[3].Scale(w[3]))
  {
    assert WeightTotal(w, 1) == w[0] && WeightTotal(w, 2) == w[0] + w[1];
    assert WeightTotal(w, 3) == w[0] + w[1] + w[2];
    assert WeightedSum(w, p, 1) == p[0].Scale(w[0]);
    assert WeightedSum(w, p, 2) == WeightedSum(w, p, 1).Add(p[1].Scale(w[1]));
    assert WeightedSum(w, p, 3) == WeightedSum(w, p, 2).Add(p[2].Scale(w[2]));
  }

  predicate PolygonAndCircle(s: Shape, t: Shape) {
    (s.PolygonShape? && t.CircleShape?) || (s.CircleShape? && t.PolygonShape?)
  }

  /** No test misses a common point, except the polygon against circle test, whose exact meaning
      is `PolygonCircleMeansBoundary`. Rectangles may be unordered: they then have no points. */
  lemma OverlapMissesNothing(s: Shape, t: Shape)
    requires SharePoint(s, t) && !PolygonAndCircle(s, t)
    ensures Overlap(s, t)
  {
    var x :| PointOf(s, x) && PointOf(t, x);
    match (s, t) {
      case (PolygonShape(p), PolygonShape(q)) =>
        if !PolygonsIntersect(p, q) { PolygonsApart(p, q, x); }
      case (PolygonShape(p), RectangleShape(r)) =>
        RectangleInHull(r, x);
        if !PolygonsIntersect(p, r.Corners()) { PolygonsApart(p, r.Corners(), x); }
      case (RectangleShape(r), PolygonShape(p)) =>
        RectangleInHull(r, x);
        if !PolygonsIntersect(p, r.Corners()) { PolygonsApart(p, r.Corners(), x); }
      case _ =>
        OverlapExact(s, t);
    }
  }
}
