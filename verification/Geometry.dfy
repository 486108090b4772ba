/** Planar vectors and shapes, and the overlap tests between shapes.
    Coordinates are exact reals; the z component, which the engine never uses, is dropped. */
module Geometry {
  import opened RealArith

  datatype Vec2 = Vec2(x: real, y: real) {
    function Add(v: Vec2): Vec2 { Vec2(x + v.x, y + v.y) }

    function Sub(v: Vec2): Vec2 { Vec2(x - v.x, y - v.y) }

    function Scale(k: real): Vec2 { Vec2(x * k, y * k) }

    function Dot(v: Vec2): real { x * v.x + y * v.y }

    function LengthSq(): real { x * x + y * y }
  }

  const ZERO := Vec2(0.0, 0.0)

  type NonNegative = r: real | 0.0 <= r witness 0.0

  function Abs(a: real): NonNegative { if a < 0.0 then -a else a }

  function Min(a: real, b: real): real { if a < b then a else b }

  function Max(a: real, b: real): real { if a > b then a else b }

  /** Clamp swaps its bounds when they come in the wrong order. */
  function Clamp(x: real, min: real, max: real): (r: real)
    ensures min <= max ==> min <= r <= max
  {
    var lo := if min > max then max else min;
    var hi := if min > max then min else max;
    if x < lo then lo else if x > hi then hi else x
  }

  /** `len` is a Euclidean length: the square root is external to the engine. */
  ghost predicate IsLength(len: Vec2 -> real) {
    forall v: Vec2 :: len(v) >= 0.0 && len(v) * len(v) == v.LengthSq()
  }

  datatype Circle = Circle(center: Vec2, radius: NonNegative) {
    predicate Contains(p: Vec2) { center.Sub(p).LengthSq() <= radius * radius }

    function Move(v: Vec2): Circle { Circle(center.Add(v), radius) }
  }

  datatype Rectangle = Rectangle(minBound: Vec2, maxBound: Vec2) {
    predicate Contains(p: Vec2) {
      !(maxBound.x < p.x || minBound.x > p.x) && !(maxBound.y < p.y || minBound.y > p.y)
    }

    predicate Ordered() { minBound.x <= maxBound.x && minBound.y <= maxBound.y }

    function Center(): Vec2 { minBound.Add(maxBound).Scale(0.5) }

    function HalfSize(): Vec2 { maxBound.Sub(minBound).Scale(0.5) }

    function Move(v: Vec2): Rectangle { Rectangle(minBound.Add(v), maxBound.Add(v)) }

    /** The four vertices in the order used when a rectangle is tested as a polygon. */
    function Corners(): seq<Vec2> {
      [minBound, Vec2(minBound.x, maxBound.y), maxBound, Vec2(maxBound.x, minBound.y)]
    }

    static function FromCenter(center: Vec2, halfSize: Vec2): Rectangle {
      Rectangle(center.Sub(halfSize), center.Add(halfSize))
    }
  }

  type Vertices = vs: seq<Vec2> | |vs| > 0 witness [ZERO]

  datatype Shape = CircleShape(circle: Circle) | RectangleShape(rect: Rectangle) | PolygonShape(vertices: Vertices)

  function MoveVertices(vs: Vertices, v: Vec2): (r: Vertices)
    ensures |r| == |vs| && forall i :: 0 <= i < |vs| ==> r[i] == vs[i].Add(v)
  {
    seq(|vs|, i requires 0 <= i < |vs| => vs[i].Add(v))
  }

  function MoveShape(s: Shape, v: Vec2): Shape {
    match s
    case CircleShape(c) => CircleShape(c.Move(v))
    case RectangleShape(r) => RectangleShape(r.Move(v))
    case PolygonShape(vs) => PolygonShape(MoveVertices(vs, v))
  }

  /** The nearest point of a rectangle, found by clamping each coordinate. */
  function ClosestInRectangle(r: Rectangle, p: Vec2): Vec2 {
    Vec2(Clamp(p.x, r.minBound.x, r.maxBound.x), Clamp(p.y, r.minBound.y, r.maxBound.y))
  }

  // ------------------------------------------------------------------ the tests

  predicate CirclesIntersect(a: Circle, b: Circle) {
    a.center.Sub(b.center).LengthSq() <= (a.radius + b.radius) * (a.radius + b.radius)
  }

  predicate RectanglesIntersect(a: Rectangle, b: Rectangle) {
    !(a.maxBound.x < b.minBound.x || a.minBound.x > b.maxBound.x) &&
    !(a.maxBound.y < b.minBound.y || a.minBound.y > b.maxBound.y)
  }

  /** The centre lies in the rectangle widened by the radius along one of the axes. */
  predicate WideOrTall(r: Rectangle, c: Circle) {
    || Rectangle(r.minBound.Sub(Vec2(c.radius, 0.0)), r.maxBound.Add(Vec2(c.radius, 0.0))).Contains(c.center)
    || Rectangle(r.minBound.Sub(Vec2(0.0, c.radius)), r.maxBound.Add(Vec2(0.0, c.radius))).Contains(c.center)
  }

  predicate RectangleCircleIntersect(r: Rectangle, c: Circle) {
    || r.Contains(c.center)
    || WideOrTall(r, c)
    || c.Contains(r.minBound)
    || c.Contains(r.maxBound)
    || c.Contains(Vec2(r.minBound.x, r.maxBound.y))
    || c.Contains(Vec2(r.maxBound.x, r.minBound.y))
  }

  function Previous(i: nat, n: nat): (j: nat)
    requires i < n
    ensures j < n
  {
    if i == 0 then n - 1 else i - 1
  }

  /** A normal of the edge that ends in vertex `i`. */
  function EdgeNormal(p: Vertices, i: nat): Vec2
    requires i < |p|
  {
    var edge := p[i].Sub(p[Previous(i, |p|)]);
    Vec2(-edge.y, edge.x)
  }

  /** The projections of `p` and `q` on `n` do not meet. */
  ghost predicate Separates(n: Vec2, p: Vertices, q: Vertices) {
    || (forall a, b :: 0 <= a < |p| && 0 <= b < |q| ==> p[a].Dot(n) < q[b].Dot(n))
    || (forall a, b :: 0 <= a < |p| && 0 <= b < |q| ==> q[b].Dot(n) < p[a].Dot(n))
  }

  ghost predicate PolygonsIntersect(p: Vertices, q: Vertices) {
    && (forall i {:trigger EdgeNormal(p, i)} :: 0 <= i < |p| ==> !Separates(EdgeNormal(p, i), p, q))
    && (forall i {:trigger EdgeNormal(q, i)} :: 0 <= i < |q| ==> !Separates(EdgeNormal(q, i), p, q))
  }

  /** Where the foot of the perpendicular from `p` lies on the line: 0 at `a`, 1 at `b`. */
  function FootParameter(a: Vec2, b: Vec2, p: Vec2): (t: real)
    requires a != b
    ensures t * b.Sub(a).LengthSq() == p.Sub(a).Dot(b.Sub(a))
  {
    SquarePositive(b.Sub(a));
    p.Sub(a).Dot(b.Sub(a)) / b.Sub(a).LengthSq()
  }

  function PointOnSegment(a: Vec2, b: Vec2, t: real): Vec2 {
    if t <= 0.0 then a else if t >= 1.0 then b else a.Add(b.Sub(a).Scale(t))
  }

  function ClosestPointOnSegment(a: Vec2, b: Vec2, p: Vec2): Vec2
    requires a != b
  {
    PointOnSegment(a, b, FootParameter(a, b, p))
  }

  lemma SquarePositive(v: Vec2)
    requires v != ZERO
    ensures v.LengthSq() > 0.0
  {
    SumOfSquaresPositive(v.x, v.y, v.LengthSq());
  }

  /** On an edge of length zero the source computes 0 / 0: its closest point is not a number,
      every comparison with it is false, and the edge reports no hit. */
  predicate EdgeHit(a: Vec2, b: Vec2, c: Circle) {
    a != b && c.center.Sub(ClosestPointOnSegment(a, b, c.center)).LengthSq() <= c.radius * c.radius
  }

  ghost predicate PolygonCircleIntersect(p: Vertices, c: Circle) {
    || (exists i :: 0 <= i < |p| && c.Contains(p[i]))
    || (exists i: nat {:trigger Previous(i, |p|)} :: i < |p| && EdgeHit(p[i], p[Previous(i, |p|)], c))
  }

  /** Whether two shapes, already moved to their places, overlap according to the engine. */
  ghost predicate Overlap(s: Shape, t: Shape) {
    match (s, t)
    case (CircleShape(a), CircleShape(b)) => CirclesIntersect(a, b)
    case (CircleShape(a), RectangleShape(b)) => RectangleCircleIntersect(b, a)
    case (CircleShape(a), PolygonShape(b)) => PolygonCircleIntersect(b, a)
    case (RectangleShape(a), CircleShape(b)) => RectangleCircleIntersect(a, b)
    case (RectangleShape(a), RectangleShape(b)) => RectanglesIntersect(a, b)
    case (RectangleShape(a), PolygonShape(b)) => PolygonsIntersect(b, a.Corners())
    case (PolygonShape(a), CircleShape(b)) => PolygonCircleIntersect(a, b)
    case (PolygonShape(a), RectangleShape(b)) => PolygonsIntersect(a, b.Corners())
    case (PolygonShape(a), PolygonShape(b)) => PolygonsIntersect(a, b)
  }

  // ------------------------------------------------------- the tests that are loops

  /** The interval covered by the projections of `p` on `n`. */
  method Project(p: Vertices, n: Vec2) returns (lo: real, hi: real)
    ensures forall i :: 0 <= i < |p| ==> lo <= p[i].Dot(n) <= hi
    ensures exists i :: 0 <= i < |p| && p[i].Dot(n) == lo
    ensures exists i :: 0 <= i < |p| && p[i].Dot(n) == hi
  {
    lo, hi := p[0].Dot(n), p[0].Dot(n);
    for k := 0 to |p|
      invariant forall i :: 0 <= i < k ==> lo <= p[i].Dot(n) <= hi
      invariant exists i :: 0 <= i < |p| && p[i].Dot(n) == lo
      invariant exists i :: 0 <= i < |p| && p[i].Dot(n) == hi
    {
      var projection := p[k].Dot(n);
      lo, hi := Min(lo, projection), Max(hi, projection);
    }
  }

  method SeparatesTest(n: Vec2, p: Vertices, q: Vertices) returns (r: bool)
    ensures r == Separates(n, p, q)
  {
    var lo1, hi1 := Project(p, n);
    var lo2, hi2 := Project(q, n);
    r := hi1 < lo2 || hi2 < lo1;
    if hi1 < lo2 {
      forall a, b | 0 <= a < |p| && 0 <= b < |q| ensures p[a].Dot(n) < q[b].Dot(n) {}
    } else if hi2 < lo1 {
      forall a, b | 0 <= a < |p| && 0 <= b < |q| ensures q[b].Dot(n) < p[a].Dot(n) {}
    } else {
      var h1 :| 0 <= h1 < |p| && p[h1].Dot(n) == hi1;
      var l1 :| 0 <= l1 < |p| && p[l1].Dot(n) == lo1;
      var h2 :| 0 <= h2 < |q| && q[h2].Dot(n) == hi2;
      var l2 :| 0 <= l2 < |q| && q[l2].Dot(n) == lo2;
      assert !(p[h1].Dot(n) < q[l2].Dot(n)) && !(q[h2].Dot(n) < p[l1].Dot(n));
    }
  }

  /** Looks for a separating axis among the edge normals of `p`, then of `q`. */
  method PolygonsIntersectTest(p: Vertices, q: Vertices) returns (r: bool)
    ensures r == PolygonsIntersect(p, q)
  {
    var i, j := 0, |p| - 1;
    while i < |p|
      invariant 0 <= i <= |p| && (i < |p| ==> j == Previous(i, |p|))
      invariant forall k {:trigger EdgeNormal(p, k)} :: 0 <= k < i ==> !Separates(EdgeNormal(p, k), p, q)
    {
      var edge := p[i].Sub(p[j]);
      var separated := SeparatesTest(Vec2(-edge.y, edge.x), p, q);
      assert EdgeNormal(p, i) == Vec2(-edge.y, edge.x);
      if separated {
        return false;
      }
      i, j := i + 1, i;
    }
    i, j := 0, |q| - 1;
    while i < |q|
      invariant 0 <= i <= |q| && (i < |q| ==> j == Previous(i, |q|))
      invariant forall k {:trigger EdgeNormal(q, k)} :: 0 <= k < i ==> !Separates(EdgeNormal(q, k), p, q)
    {
      var edge := q[i].Sub(q[j]);
      var separated := SeparatesTest(Vec2(-edge.y, edge.x), p, q);
      assert EdgeNormal(q, i) == Vec2(-edge.y, edge.x);
      if separated {
        return false;
      }
      i, j := i + 1, i;
    }
    return true;
  }

  method PolygonCircleIntersectTest(p: Vertices, c: Circle) returns (r: bool)
    ensures r == PolygonCircleIntersect(p, c)
  {
    for k := 0 to |p|
      invariant forall i :: 0 <= i < k ==> !c.Contains(p[i])
    {
      if c.Contains(p[k]) {
        return true;
      }
    }
    var i, j := 0, |p| - 1;
    while i < |p|
      invariant 0 <= i <= |p| && (i < |p| ==> j == Previous(i, |p|))
      invariant forall k: nat {:trigger Previous(k, |p|)} :: k < i ==> !EdgeHit(p[k], p[Previous(k, |p|)], c)
    {
      if EdgeHit(p[i], p[j], c) {
        return true;
      }
      i, j := i + 1, i;
    }
    return false;
  }

  /** `World::Overlap`: dispatch on the two shape kinds. */
  method OverlapTest(s: Shape, t: Shape) returns (r: bool)
    ensures r == Overlap(s, t)
  {
    match (s, t) {
      case (CircleShape(a), CircleShape(b)) => r := CirclesIntersect(a, b);
      case (CircleShape(a), RectangleShape(b)) => r := RectangleCircleIntersect(b, a);
      case (CircleShape(a), PolygonShape(b)) => r := PolygonCircleIntersectTest(b, a);
      case (RectangleShape(a), CircleShape(b)) => r := RectangleCircleIntersect(a, b);
      case (RectangleShape(a), RectangleShape(b)) => r := RectanglesIntersect(a, b);
      case (RectangleShape(a), PolygonShape(b)) => r := PolygonsIntersectTest(b, a.Corners());
      case (PolygonShape(a), CircleShape(b)) => r := PolygonCircleIntersectTest(a, b);
      case (PolygonShape(a), RectangleShape(b)) => r := PolygonsIntersectTest(a, b.Corners());
      case (PolygonShape(a), PolygonShape(b)) => r := PolygonsIntersectTest(a, b);
    }
  }
}
