/** When the separating axis test is right: for convex polygons its positive answer means a common point,
    except when all vertices of both lie on one line. */
module ConvexPolygons {
  import opened RealArith
  import opened Geometry
  import opened NarrowPhase

  function Cross(u: Vec2, v: Vec2): real { u.x * v.y - u.y * v.x }

  /** The edge that ends in vertex `i`. */
  function Edge(p: Vertices, i: nat): Vec2
    requires i < |p|
  {
    p[i].Sub(p[Previous(i, |p|)])
  }

  predicate TurnsLeft(p: Vertices) {
    forall i: nat, k: nat {:trigger Edge(p, i), p[k]} :: i < |p| && k < |p| ==> Cross(Edge(p, i), p[k].Sub(p[i])) >= 0.0
  }

  predicate TurnsRight(p: Vertices) {
    forall i: nat, k: nat {:trigger Edge(p, i), p[k]} :: i < |p| && k < |p| ==> Cross(Edge(p, i), p[k].Sub(p[i])) <= 0.0
  }

  /** Every edge has all vertices on the same side. Repeated vertices and vertices inside an edge are allowed. */
  predicate Convex(p: Vertices) { TurnsLeft(p) || TurnsRight(p) }

  /** Some line contains all vertices of both. */
  ghost predicate OneLine(p: Vertices, q: Vertices) {
    exists m: Vec2, c: real :: m != ZERO && OnLine(p, m, c) && OnLine(q, m, c)
  }

  predicate OnLine(p: Vertices, m: Vec2, c: real) { forall i :: 0 <= i < |p| ==> p[i].Dot(m) == c }

  // ------------------------------------------------------------ the hull is convex

  function Lerp(a: real, b: real, t: real): real { a * (1.0 - t) + b * t }

  function Mix(x: Vec2, y: Vec2, t: real): Vec2 { Vec2(Lerp(x.x, y.x, t), Lerp(x.y, y.y, t)) }

  lemma LerpSum(a: real, b: real, c: real, d: real, t: real)
    ensures Lerp(a, b, t) + Lerp(c, d, t) == Lerp(a + c, b + d, t)
    ensures Lerp(a, b, t) - Lerp(c, d, t) == Lerp(a - c, b - d, t)
  {}

  lemma LerpSame(a: real, t: real)
    ensures Lerp(a, a, t) == a
  {}

  lemma LerpNonNegative(a: real, b: real, t: real)
    requires a >= 0.0 && b >= 0.0 && 0.0 <= t <= 1.0
    ensures Lerp(a, b, t) >= 0.0
  {
    ProductNonNegative(a, 1.0 - t);
    ProductNonNegative(b, t);
  }

  ghost function Blend(w: seq<real>, v: seq<real>, t: real): (r: seq<real>)
    requires |w| == |v|
    ensures |r| == |w| && forall i :: 0 <= i < |w| ==> r[i] == Lerp(w[i], v[i], t)
  {
    seq(|w|, i requires 0 <= i < |w| => Lerp(w[i], v[i], t))
  }

  lemma {:induction false} BlendTotals(w: seq<real>, v: seq<real>, t: real, p: seq<Vec2>, k: nat)
    requires |w| == |v| == |p| && k <= |w|
    ensures WeightTotal(Blend(w, v, t), k) == Lerp(WeightTotal(w, k), WeightTotal(v, k), t)
    ensures WeightedSum(Blend(w, v, t), p, k) == Mix(WeightedSum(w, p, k), WeightedSum(v, p, k), t)
  {
    hide Lerp, Vec2.Scale, Vec2.Add, Mix;
    if k == 0 {
      LerpSame(0.0, t);
      MixZero(t);
    } else {
      var n := k - 1;
      BlendTotals(w, v, t, p, n);
      LerpSum(WeightTotal(w, n), WeightTotal(v, n), w[n], v[n], t);
      BlendStep(WeightedSum(w, p, n), WeightedSum(v, p, n), w[n], v[n], t, Blend(w, v, t)[n], p[n]);
    }
  }

  lemma MixZero(t: real)
    ensures Mix(ZERO, ZERO, t) == ZERO
  {}

  lemma BlendAxis(x: real, y: real, a: real, b: real, t: real, c: real, q: real, l: real, r: real)
    requires c == Lerp(a, b, t) && l == x + q * a && r == y + q * b
    ensures Lerp(x, y, t) + q * c == Lerp(l, r, t)
  {}

  lemma BlendStep(x: Vec2, y: Vec2, a: real, b: real, t: real, c: real, q: Vec2)
    requires c == Lerp(a, b, t)
    ensures Mix(x, y, t).Add(q.Scale(c)) == Mix(x.Add(q.Scale(a)), y.Add(q.Scale(b)), t)
  {
    hide Lerp;
    var l, r := x.Add(q.Scale(a)), y.Add(q.Scale(b));
    BlendAxis(x.x, y.x, a, b, t, c, q.x, l.x, r.x);
    BlendAxis(x.y, y.y, a, b, t, c, q.y, l.y, r.y);
  }

  lemma HullConvex(p: Vertices, x: Vec2, y: Vec2, t: real)
    requires InHull(p, x) && InHull(p, y) && 0.0 <= t <= 1.0
    ensures InHull(p, Mix(x, y, t))
  {
    hide Mix, Lerp;
    var w :| CombinationOf(w, p, x);
    var v :| CombinationOf(v, p, y);
    var r := Blend(w, v, t);
    BlendTotals(w, v, t, p, |p|);
    forall i | 0 <= i < |p| ensures r[i] >= 0.0 {
      LerpNonNegative(w[i], v[i], t);
    }
    assert WeightTotal(r, |p|) == 1.0 by { LerpSame(1.0, t); }
    assert CombinationOf(r, p, Mix(x, y, t));
  }

  /** All weight on vertex `i`. */
  ghost function Unit(n: nat, i: nat): (r: seq<real>)
    ensures |r| == n && forall k :: 0 <= k < n ==> r[k] == if k == i then 1.0 else 0.0
  {
    seq(n, k => if k == i then 1.0 else 0.0)
  }

  lemma {:induction false} UnitTotals(p: seq<Vec2>, i: nat, k: nat)
    requires i < |p| && k <= |p|
    ensures WeightTotal(Unit(|p|, i), k) == if i < k then 1.0 else 0.0
    ensures WeightedSum(Unit(|p|, i), p, k) == if i < k then p[i] else ZERO
  {
    hide Vec2.Scale, Vec2.Add, Unit;
    if k > 0 {
      var n, w := k - 1, Unit(|p|, i);
      UnitTotals(p, i, n);
      assert w[n] == if n == i then 1.0 else 0.0;
      ScaleUnit(p[n]);
      AddZero(p[i]);
      AddZero(ZERO);
      assert WeightedSum(w, p, k) == WeightedSum(w, p, n).Add(p[n].Scale(w[n]));
    }
  }

  lemma ScaleUnit(v: Vec2)
    ensures v.Scale(1.0) == v && v.Scale(0.0) == ZERO && v.Scale(-1.0).Scale(-1.0) == v
  {}

  lemma AddZero(v: Vec2)
    ensures v.Add(ZERO) == v && ZERO.Add(v) == v
  {}

  lemma VertexInHull(p: Vertices, i: nat)
    requires i < |p|
    ensures InHull(p, p[i])
  {
    UnitTotals(p, i, |p|);
    assert CombinationOf(Unit(|p|, i), p, p[i]);
  }

  // ------------------------------------------------- the differences between the two hulls

  /** `d` leads from a point of the first hull to a point of the second. */
  ghost predicate Leads(p: Vertices, q: Vertices, d: Vec2) {
    exists x, y :: InHull(p, x) && InHull(q, y) && d == y.Sub(x)
  }

  lemma LeadsConvex(p: Vertices, q: Vertices, d: Vec2, e: Vec2, t: real)
    requires Leads(p, q, d) && Leads(p, q, e) && 0.0 <= t <= 1.0
    ensures Leads(p, q, Mix(d, e, t))
  {
    hide InHull, Mix, Vec2.Sub;
    var x, y :| InHull(p, x) && InHull(q, y) && d == y.Sub(x);
    var x', y' :| InHull(p, x') && InHull(q, y') && e == y'.Sub(x');
    HullConvex(p, x, x', t);
    HullConvex(q, y, y', t);
    MixDifference(x, y, x', y', t);
    assert Mix(d, e, t) == Mix(y, y', t).Sub(Mix(x, x', t));
  }

  lemma MixDifference(x: Vec2, y: Vec2, x': Vec2, y': Vec2, t: real)
    ensures Mix(y.Sub(x), y'.Sub(x'), t) == Mix(y, y', t).Sub(Mix(x, x', t))
  {
    hide Lerp;
    LerpSum(y.x, y'.x, x.x, x'.x, t);
    LerpSum(y.y, y'.y, x.y, x'.y, t);
  }

  /** If a combination with non-negative weights of such vectors vanishes, the hulls share a point. */
  lemma Balanced(p: Vertices, q: Vertices, u: Vec2, v: Vec2, d: Vec2, a: real, b: real, c: real)
    requires Leads(p, q, u) && Leads(p, q, v) && Leads(p, q, d)
    requires a >= 0.0 && b >= 0.0 && c > 0.0
    requires u.Scale(a).Add(v.Scale(b)).Add(d.Scale(c)) == ZERO
    ensures exists x :: InHull(p, x) && InHull(q, x)
  {
    hide Leads, Vec2.Scale, Vec2.Add;
    var e := Mixed(p, q, u, v, a, b);
    var z := Mixed(p, q, e, d, a + b, c);
    assert z == ZERO by { NoWeight(z, a + b + c); }
    LeadsNowhere(p, q);
  }

  lemma Mixed(p: Vertices, q: Vertices, u: Vec2, v: Vec2, a: real, b: real) returns (e: Vec2)
    requires Leads(p, q, u) && Leads(p, q, v) && a >= 0.0 && b >= 0.0
    ensures Leads(p, q, e) && e.Scale(a + b) == u.Scale(a).Add(v.Scale(b))
  {
    hide Leads, Mix;
    if a + b == 0.0 {
      e := u;
    } else {
      var t := b / (a + b);
      DivTimes(b, a + b);
      DivSign(b, a + b, t);
      if t > 1.0 { ProductPositive(t - 1.0, a + b, t * (a + b) - (a + b)); }
      LeadsConvex(p, q, u, v, t);
      e := Mix(u, v, t);
      MixScaled(u, v, a, b, t);
    }
  }

  lemma MixScaled(u: Vec2, v: Vec2, a: real, b: real, t: real)
    requires t * (a + b) == b
    ensures Mix(u, v, t).Scale(a + b) == u.Scale(a).Add(v.Scale(b))
  {
    hide Lerp;
    LerpScaled(u.x, v.x, a, b, t, a + b);
    LerpScaled(u.y, v.y, a, b, t, a + b);
  }

  lemma LerpScaled(u: real, v: real, a: real, b: real, t: real, k: real)
    requires t * k == b && k == a + b
    ensures Lerp(u, v, t) * k == u * a + v * b
  {
    assert (u * (1.0 - t)) * k == u * (k - t * k);
    assert (v * t) * k == v * (t * k);
  }

  lemma NoWeight(z: Vec2, k: real)
    requires k > 0.0 && z.Scale(k) == ZERO
    ensures z == ZERO
  {
    CancelFactor(z.x, 0.0, k);
    CancelFactor(z.y, 0.0, k);
  }

  lemma LeadsNowhere(p: Vertices, q: Vertices)
    requires Leads(p, q, ZERO)
    ensures exists x :: InHull(p, x) && InHull(q, x)
  {
    hide InHull;
    var x, y :| InHull(p, x) && InHull(q, y) && ZERO == y.Sub(x);
    assert x == y;
  }

  // ------------------------------------------------------------ a direction that separates

  lemma Plucker(n: Vec2, f: Vec2, g: Vec2, w: Vec2)
    ensures n.Dot(g) * Cross(f, w) == n.Dot(f) * Cross(g, w) + n.Dot(w) * Cross(f, g)
  {}

  lemma SelfDot(u: Vec2)
    requires u != ZERO
    ensures u.Dot(u) > 0.0
  {
    SquarePositive(u);
    assert u.Dot(u) == u.LengthSq();
  }

  /** Cramer's rule for `d` in terms of `u` and `v`. */
  lemma Cramer(u: Vec2, v: Vec2, d: Vec2)
    ensures d.Scale(Cross(u, v)) == u.Scale(Cross(d, v)).Add(v.Scale(Cross(u, d)))
  {}

  lemma CrossSwaps(u: Vec2, v: Vec2)
    ensures Cross(v, u) == -Cross(u, v) && Cross(u, u) == 0.0
  {}

  /** `u` and `v` span a cone, with `v` to the left of `u`, or are the same ray. */
  predicate Wedge(u: Vec2, v: Vec2) { u != ZERO && v != ZERO && (u == v || Cross(u, v) > 0.0) }

  predicate InWedge(u: Vec2, v: Vec2, d: Vec2) {
    d != ZERO && Cross(u, d) >= 0.0 && Cross(d, v) >= 0.0 && (u == v ==> u.Dot(d) > 0.0)
  }

  /** Unless the hulls share a point, the differences lie in a cone whose sides are among them. */
  lemma {:induction false} Sweep(p: Vertices, q: Vertices, s: seq<Vec2>) returns (u: Vec2, v: Vec2)
    requires s != [] && forall d :: d in s ==> Leads(p, q, d)
    requires !exists x :: InHull(p, x) && InHull(q, x)
    ensures Leads(p, q, u) && Leads(p, q, v) && Wedge(u, v)
    ensures forall d :: d in s ==> InWedge(u, v, d)
  {
    hide Leads, InHull, Cross;
    var n := |s| - 1;
    var d := s[n];
    if d == ZERO { LeadsNowhere(p, q); }
    if n == 0 {
      u, v := d, d;
      CrossSwaps(d, d);
      SelfDot(d);
    } else {
      var u0, v0 := Sweep(p, q, s[..n]);
      u, v := Widen(p, q, u0, v0, d);
      forall w | w in s ensures InWedge(u, v, w) {
        if w != d {
          assert w in s[..n];
          StillInWedge(u0, v0, d, u, v, w);
        }
      }
    }
  }

  lemma Widen(p: Vertices, q: Vertices, u: Vec2, v: Vec2, d: Vec2) returns (u': Vec2, v': Vec2)
    requires Leads(p, q, u) && Leads(p, q, v) && Leads(p, q, d) && d != ZERO && Wedge(u, v)
    requires !exists x :: InHull(p, x) && InHull(q, x)
    ensures Leads(p, q, u') && Leads(p, q, v') && Wedge(u', v') && InWedge(u', v', d)
    ensures (u', v') == (u, v) || (u' == d && v' == v && Cross(u, d) < 0.0) || (u' == u && v' == d && Cross(d, v) < 0.0)
  {
    hide Leads, InHull, Cross;
    u', v' := u, v;
    CrossSwaps(u, d);
    CrossSwaps(d, d);
    if u == v && Cross(u, d) == 0.0 {
      if u.Dot(d) <= 0.0 { Opposite(p, q, u, d); }
    } else if Cross(u, d) <= 0.0 && Cross(d, v) <= 0.0 {
      Cramer(u, v, d);
      Surrounded(u, v, d, Cross(u, v), Cross(d, v), Cross(u, d));
      Balanced(p, q, u, v, d, -Cross(d, v), -Cross(u, d), Cross(u, v));
    } else if Cross(u, d) < 0.0 {
      u' := d;
    } else if Cross(d, v) < 0.0 {
      v' := d;
    }
  }

  lemma Surrounded(u: Vec2, v: Vec2, d: Vec2, c: real, a: real, b: real)
    requires d.Scale(c) == u.Scale(a).Add(v.Scale(b))
    ensures u.Scale(-a).Add(v.Scale(-b)).Add(d.Scale(c)) == ZERO
  {}

  lemma Opposite(p: Vertices, q: Vertices, u: Vec2, d: Vec2)
    requires Leads(p, q, u) && Leads(p, q, d) && u != ZERO && Cross(u, d) == 0.0 && u.Dot(d) <= 0.0
    ensures exists x :: InHull(p, x) && InHull(q, x)
  {
    hide Leads, InHull;
    SquarePositive(u);
    Along(u, d);
    assert d.Scale(u.LengthSq()) == u.Scale(u.Dot(d)).Add(u.Scale(0.0));
    Surrounded(u, u, d, u.LengthSq(), u.Dot(d), 0.0);
    Balanced(p, q, u, u, d, -u.Dot(d), 0.0, u.LengthSq());
  }

  lemma Along(u: Vec2, d: Vec2)
    requires Cross(u, d) == 0.0
    ensures d.Scale(u.LengthSq()) == u.Scale(u.Dot(d))
  {
    assert d.x * u.LengthSq() == u.x * u.Dot(d) - u.y * Cross(u, d);
    assert d.y * u.LengthSq() == u.y * u.Dot(d) + u.x * Cross(u, d);
  }

  lemma StillInWedge(u: Vec2, v: Vec2, d: Vec2, u': Vec2, v': Vec2, w: Vec2)
    requires Wedge(u, v) && InWedge(u, v, w) && Wedge(u', v')
    requires (u', v') == (u, v) || (u' == d && v' == v && Cross(u, d) < 0.0) ||
        (u' == u && v' == d && Cross(d, v) < 0.0)
    ensures InWedge(u', v', w)
  {
    hide Cross;
    if u' != u {
      WiderRight(u, v, d, w);
    } else if v' != v {
      WiderLeft(u, v, d, w);
    }
  }

  lemma WiderRight(u: Vec2, v: Vec2, d: Vec2, w: Vec2)
    requires Wedge(u, v) && InWedge(u, v, w) && Wedge(d, v) && Cross(u, d) < 0.0
    ensures InWedge(d, v, w)
  {
    hide Cross, Vec2.Dot;
    CrossSwaps(u, d);
    CrossSwaps(u, w);
    if u == v {
      assert Cross(u, w) == 0.0 && u.Dot(d) * Cross(u, w) == 0.0;
      Plucker(u, d, u, w);
      SelfDot(u);
      NonNegativeFactor(u.Dot(u), Cross(d, w), u.Dot(w), Cross(d, u), 0.0, 0.0);
    } else {
      FourCrosses(u, v, d, w);
      NonNegativeFactor(Cross(u, v), Cross(d, w), Cross(w, v), Cross(d, u), Cross(u, w), Cross(d, v));
    }
  }

  lemma WiderLeft(u: Vec2, v: Vec2, d: Vec2, w: Vec2)
    requires Wedge(u, v) && InWedge(u, v, w) && Wedge(u, d) && Cross(d, v) < 0.0
    ensures InWedge(u, d, w)
  {
    hide Cross, Vec2.Dot;
    CrossSwaps(v, d);
    CrossSwaps(u, w);
    CrossSwaps(d, w);
    if u == v {
      assert Cross(w, u) == 0.0 && u.Dot(d) * Cross(w, u) == 0.0;
      Plucker(u, w, u, d);
      SelfDot(u);
      NonNegativeFactor(u.Dot(u), Cross(w, d), u.Dot(w), Cross(u, d), 0.0, 0.0);
    } else {
      FourCrosses(u, v, w, d);
      NonNegativeFactor(Cross(u, v), Cross(w, d), Cross(w, v), Cross(u, d), Cross(u, w), Cross(v, d));
    }
  }

  lemma FourCrosses(u: Vec2, v: Vec2, d: Vec2, w: Vec2)
    ensures Cross(u, v) * Cross(d, w) == Cross(w, v) * Cross(d, u) + Cross(u, w) * Cross(d, v)
    ensures Cross(u, v) * Cross(d, w) == Cross(u, w) * Cross(d, v) - Cross(d, u) * Cross(v, w)
  {}

  lemma NonNegativeFactor(k: real, x: real, a: real, b: real, c: real, d: real)
    requires k > 0.0 && k * x == a * b + c * d && a >= 0.0 && b >= 0.0 && c >= 0.0 && d >= 0.0
    ensures x >= 0.0
  {}

  /** From the point `x` to all vertices. */
  ghost function Arms(p: Vertices, x: Vec2): (r: seq<Vec2>)
    ensures |r| == |p| && forall i :: 0 <= i < |p| ==> r[i] == p[i].Sub(x)
  {
    seq(|p|, i requires 0 <= i < |p| => p[i].Sub(x))
  }

  /** All differences between a vertex of `q` and one of the first `k` vertices of `p`. */
  ghost function Differences(p: Vertices, q: Vertices, k: nat): seq<Vec2>
    requires k <= |p|
  {
    if k == 0 then [] else Differences(p, q, k - 1) + Arms(q, p[k - 1])
  }

  lemma {:induction false} DifferencesHold(p: Vertices, q: Vertices, k: nat, a: nat, b: nat)
    requires a < k <= |p| && b < |q|
    ensures q[b].Sub(p[a]) in Differences(p, q, k)
  {
    hide Vec2.Sub;
    if a < k - 1 {
      DifferencesHold(p, q, k - 1, a, b);
    } else {
      assert Arms(q, p[a])[b] in Arms(q, p[a]);
    }
  }

  lemma {:induction false} DifferencesLead(p: Vertices, q: Vertices, k: nat, d: Vec2)
    requires k <= |p| && d in Differences(p, q, k)
    ensures Leads(p, q, d)
  {
    hide Leads, Vec2.Sub;
    if d in Differences(p, q, k - 1) {
      DifferencesLead(p, q, k - 1, d);
    } else {
      var b :| 0 <= b < |q| && Arms(q, p[k - 1])[b] == d;
      VerticesLead(p, q, k - 1, b);
    }
  }

  lemma VerticesLead(p: Vertices, q: Vertices, a: nat, b: nat)
    requires a < |p| && b < |q|
    ensures Leads(p, q, q[b].Sub(p[a]))
  {
    hide InHull, Vec2.Sub;
    VertexInHull(p, a);
    VertexInHull(q, b);
  }

  /** Hulls without a common point lie strictly on the two sides of some line. */
  lemma SeparatingDirection(p: Vertices, q: Vertices) returns (n: Vec2)
    requires !exists x :: InHull(p, x) && InHull(q, x)
    ensures forall a, b :: 0 <= a < |p| && 0 <= b < |q| ==> n.Dot(q[b].Sub(p[a])) > 0.0
  {
    hide Leads, InHull, Cross, Vec2.Dot, Vec2.Sub;
    var s := Differences(p, q, |p|);
    forall a: nat, b: nat | a < |p| && b < |q| ensures q[b].Sub(p[a]) in s {
      DifferencesHold(p, q, |p|, a, b);
    }
    assert s != [] by { assert q[0].Sub(p[0]) in s; }
    forall d | d in s ensures Leads(p, q, d) {
      DifferencesLead(p, q, |p|, d);
    }
    var u, v := Sweep(p, q, s);
    n := if u == v then u else Vec2(v.y - u.y, u.x - v.x);
    forall d | d in s ensures n.Dot(d) > 0.0 {
      assert InWedge(u, v, d);
      if u != v { WedgeAhead(u, v, d); }
    }
  }

  lemma WedgeAhead(u: Vec2, v: Vec2, d: Vec2)
    requires Wedge(u, v) && u != v && InWedge(u, v, d)
    ensures Vec2(v.y - u.y, u.x - v.x).Dot(d) > 0.0
  {
    hide Cross, Vec2.Dot, Vec2.Scale, Vec2.Add;
    SumOfCrosses(u, v, d);
    if Cross(u, d) == 0.0 && Cross(d, v) == 0.0 {
      Cramer(u, v, d);
      NoneOfEither(u, v, Cross(d, v), Cross(u, d));
      NoWeight(d, Cross(u, v));
    }
  }

  lemma NoneOfEither(u: Vec2, v: Vec2, a: real, b: real)
    requires a == 0.0 && b == 0.0
    ensures u.Scale(a).Add(v.Scale(b)) == ZERO
  {}

  lemma SumOfCrosses(u: Vec2, v: Vec2, d: Vec2)
    ensures Vec2(v.y - u.y, u.x - v.x).Dot(d) == Cross(u, d) + Cross(d, v)
  {}

  // ----------------------------------------------------------------- the edges at a vertex

  /** A change after `lo`, between neighbours. */
  lemma ChangeAfter(p: Vertices, lo: nat, hi: nat) returns (b: nat)
    requires lo < hi < |p| && p[hi] != p[lo]
    ensures lo < b <= hi && p[b - 1] == p[lo] && p[b] != p[lo]
  {
    b := lo + 1;
    while p[b] == p[lo]
      invariant lo < b <= hi && p[b - 1] == p[lo]
      decreases hi - b
    {
      b := b + 1;
    }
  }

  lemma ChangeBefore(p: Vertices, lo: nat, hi: nat) returns (c: nat)
    requires lo < hi < |p| && p[lo] != p[hi]
    ensures lo < c <= hi && p[c] == p[hi] && p[c - 1] != p[hi]
  {
    c := hi;
    while p[c - 1] == p[hi]
      invariant lo < c <= hi && p[c] == p[hi]
      decreases c
    {
      c := c - 1;
    }
  }

  /** The edge that leaves the point of vertex `a`, going round. */
  lemma Leaving(p: Vertices, a: nat, k: nat) returns (b: nat)
    requires a < |p| && k < |p| && p[k] != p[a]
    ensures b < |p| && p[Previous(b, |p|)] == p[a] && p[b] != p[a]
  {
    var last := |p| - 1;
    if a < k {
      b := ChangeAfter(p, a, k);
    } else if p[last] != p[a] {
      b := ChangeAfter(p, a, last);
    } else if p[0] != p[a] {
      b := 0;
    } else {
      b := ChangeAfter(p, 0, k);
    }
  }

  /** The edge that arrives there. */
  lemma Arriving(p: Vertices, a: nat, k: nat) returns (c: nat)
    requires a < |p| && k < |p| && p[k] != p[a]
    ensures c < |p| && p[c] == p[a] && p[Previous(c, |p|)] != p[a]
  {
    var last := |p| - 1;
    if k < a {
      c := ChangeBefore(p, k, a);
    } else if p[0] != p[a] {
      c := ChangeBefore(p, 0, a);
    } else if p[last] != p[a] {
      c := 0;
    } else {
      c := ChangeBefore(p, k, last);
    }
  }

  /** `f` is an edge, in one or the other sense. */
  ghost predicate IsEdge(p: Vertices, f: Vec2) {
    f != ZERO && exists i: nat {:trigger Edge(p, i)} :: i < |p| && (f == Edge(p, i) || f == Edge(p, i).Scale(-1.0))
  }

  lemma IsEdgeBack(p: Vertices, f: Vec2)
    requires IsEdge(p, f)
    ensures IsEdge(p, f.Scale(-1.0))
  {
    hide Edge, Vec2.Scale;
    var i: nat {:trigger Edge(p, i)} :| i < |p| && (f == Edge(p, i) || f == Edge(p, i).Scale(-1.0));
    var e := Edge(p, i);
    ScaleUnit(e);
    NotZeroBack(f);
    assert f.Scale(-1.0) == e || f.Scale(-1.0) == e.Scale(-1.0);
  }

  lemma NotZeroBack(f: Vec2)
    requires f != ZERO
    ensures f.Scale(-1.0) != ZERO
  {}

  predicate AllLeft(f: Vec2, ws: seq<Vec2>) { forall i :: 0 <= i < |ws| ==> Cross(f, ws[i]) >= 0.0 }

  predicate AllRight(h: Vec2, ws: seq<Vec2>) { forall i :: 0 <= i < |ws| ==> Cross(ws[i], h) >= 0.0 }

  predicate Ahead(n: Vec2, ws: seq<Vec2>) { forall i :: 0 <= i < |ws| ==> n.Dot(ws[i]) >= 0.0 }

  predicate SinglePoint(p: Vertices) { forall i :: 0 <= i < |p| ==> p[i] == p[0] }

  lemma CrossFrom(e: Vec2, x: Vec2, y: Vec2, z: Vec2)
    requires e == y.Sub(z) || e == z.Sub(y)
    ensures Cross(e, x.Sub(y)) == Cross(e, x.Sub(z))
    ensures Cross(x.Sub(z), e.Scale(-1.0)) == Cross(e, x.Sub(z))
  {}

  /** All vertices lie between the two edges at a vertex of a convex polygon. */
  lemma Corner(p: Vertices, a: nat) returns (f: Vec2, h: Vec2)
    requires Convex(p) && a < |p| && !SinglePoint(p)
    ensures IsEdge(p, f) && IsEdge(p, h) && f in Arms(p, p[a]) && h in Arms(p, p[a])
    ensures AllLeft(f, Arms(p, p[a])) && AllRight(h, Arms(p, p[a]))
  {
    hide Cross, Vec2.Sub;
    var other :| 0 <= other < |p| && p[other] != p[0];
    var k := if p[0] != p[a] then 0 else other;
    var b := Leaving(p, a, k);
    var c := Arriving(p, a, k);
    var d := Previous(c, |p|);
    f, h := p[b].Sub(p[a]), p[d].Sub(p[a]);
    assert Edge(p, b) == f;
    assert Arms(p, p[a])[b] == f && Arms(p, p[a])[d] == h;
    var g := Edge(p, c);
    EdgeSenses(p[a], p[b], p[d], f, h, g);
    forall i | 0 <= i < |p|
      ensures Cross(g, p[i].Sub(p[c])) == Cross(g, p[i].Sub(p[a])) == Cross(p[i].Sub(p[a]), h)
      ensures Cross(f, p[i].Sub(p[b])) == Cross(f, p[i].Sub(p[a]))
      ensures Cross(f, p[i].Sub(p[a])) == -Cross(p[i].Sub(p[a]), f)
      ensures Cross(h, p[i].Sub(p[a])) == -Cross(p[i].Sub(p[a]), h)
    {
      CrossFrom(f, p[i], p[b], p[a]);
      CrossFrom(g, p[i], p[d], p[a]);
      CrossSwaps(p[i].Sub(p[a]), f);
      CrossSwaps(p[i].Sub(p[a]), h);
    }
    if !TurnsLeft(p) {
      f, h := h, f;
    }
  }

  lemma EdgeSenses(z: Vec2, y: Vec2, x: Vec2, f: Vec2, h: Vec2, g: Vec2)
    requires y != z && x != z && f == y.Sub(z) && h == x.Sub(z) && g == z.Sub(x)
    ensures f != ZERO && h != ZERO && h == g.Scale(-1.0)
  {}

  // ------------------------------------------------------------------ the separating edge

  lemma FirstRay(n: Vec2, f: Vec2, g: Vec2, ws: seq<Vec2>)
    requires n.Dot(f) > 0.0 && n.Dot(g) > 0.0 && Cross(f, g) >= 0.0 && AllLeft(g, ws) && Ahead(n, ws)
    ensures AllLeft(f, ws)
  {
    hide Cross, Vec2.Dot;
    forall i | 0 <= i < |ws| ensures Cross(f, ws[i]) >= 0.0 {
      Plucker(n, f, g, ws[i]);
      NonNegativeFactor(n.Dot(g), Cross(f, ws[i]), n.Dot(f), Cross(g, ws[i]), n.Dot(ws[i]), Cross(f, g));
    }
  }

  lemma LastRay(n: Vec2, k: Vec2, h: Vec2, ws: seq<Vec2>)
    requires n.Dot(k) > 0.0 && n.Dot(h) > 0.0 && Cross(k, h) >= 0.0 && AllRight(k, ws) && Ahead(n, ws)
    ensures AllRight(h, ws)
  {
    hide Cross, Vec2.Dot;
    forall i | 0 <= i < |ws| ensures Cross(ws[i], h) >= 0.0 {
      Plucker(n, ws[i], k, h);
      NonNegativeFactor(n.Dot(k), Cross(ws[i], h), n.Dot(ws[i]), Cross(k, h), n.Dot(h), Cross(ws[i], k));
    }
  }

  /** A vector `d` ahead is strictly left of the first ray, or strictly right of the last, or all is on one line. */
  lemma Beside(n: Vec2, d: Vec2, r: Vec2, s: Vec2)
    requires n.Dot(d) > 0.0 && n.Dot(r) > 0.0 && n.Dot(s) > 0.0 && Cross(r, s) >= 0.0
    requires Cross(r, d) <= 0.0 && Cross(d, s) <= 0.0
    ensures Cross(r, s) == 0.0 && Cross(r, d) == 0.0
  {
    hide Cross, Vec2.Dot;
    Plucker(n, r, d, s);
    BothZero(n.Dot(d), Cross(r, s), n.Dot(r), -Cross(d, s), n.Dot(s), -Cross(r, d));
  }

  lemma BothZero(k: real, x: real, a: real, b: real, c: real, d: real)
    requires k > 0.0 && a > 0.0 && c > 0.0 && x >= 0.0 && b >= 0.0 && d >= 0.0
    requires k * x == -(a * b) - c * d || k * x == a * (-b) + c * (-d)
    ensures x == 0.0 && b == 0.0 && d == 0.0
  {
    ProductNonNegative(k, x);
    ProductNonNegative(a, b);
    ProductNonNegative(c, d);
    if x > 0.0 { ProductPositive(k, x, k * x); }
    if b > 0.0 { ProductPositive(a, b, a * b); }
    if d > 0.0 { ProductPositive(c, d, c * d); }
  }

  lemma OnRay(n: Vec2, r: Vec2, s: Vec2, w: Vec2)
    requires n.Dot(r) > 0.0 && n.Dot(s) > 0.0 && Cross(r, s) == 0.0 && Cross(r, w) >= 0.0 && Cross(w, s) >= 0.0
    ensures Cross(r, w) == 0.0
  {
    hide Cross, Vec2.Dot;
    Plucker(n, r, w, s);
    assert n.Dot(w) * Cross(r, s) == 0.0;
    BothZero(1.0, 0.0, n.Dot(r), Cross(w, s), n.Dot(s), Cross(r, w));
  }

  lemma EdgeSeparates(p: Vertices, q: Vertices, r: Vec2)
    requires IsEdge(p, r) || IsEdge(q, r)
    requires forall a, b :: 0 <= a < |p| && 0 <= b < |q| ==> Cross(r, q[b].Sub(p[a])) > 0.0
    ensures !PolygonsIntersect(p, q)
  {
    hide Separates, Cross;
    if IsEdge(p, r) {
      var i: nat {:trigger Edge(p, i)} :| i < |p| && (r == Edge(p, i) || r == Edge(p, i).Scale(-1.0));
      NormalSeparates(p, q, Edge(p, i), r, EdgeNormal(p, i));
    } else {
      var i: nat {:trigger Edge(q, i)} :| i < |q| && (r == Edge(q, i) || r == Edge(q, i).Scale(-1.0));
      NormalSeparates(p, q, Edge(q, i), r, EdgeNormal(q, i));
    }
  }

  lemma NormalSeparates(p: Vertices, q: Vertices, e: Vec2, r: Vec2, m: Vec2)
    requires (r == e || r == e.Scale(-1.0)) && m == Vec2(-e.y, e.x)
    requires forall a, b :: 0 <= a < |p| && 0 <= b < |q| ==> Cross(r, q[b].Sub(p[a])) > 0.0
    ensures Separates(m, p, q)
  {
    hide Cross, Vec2.Dot;
    forall a, b | 0 <= a < |p| && 0 <= b < |q|
      ensures r == e ==> p[a].Dot(m) < q[b].Dot(m)
      ensures r == e.Scale(-1.0) ==> q[b].Dot(m) < p[a].Dot(m)
    {
      CrossAsDot(e, r, m, p[a], q[b]);
    }
  }

  lemma CrossAsDot(e: Vec2, r: Vec2, m: Vec2, x: Vec2, y: Vec2)
    requires m == Vec2(-e.y, e.x)
    ensures r == e ==> Cross(r, y.Sub(x)) == y.Dot(m) - x.Dot(m)
    ensures r == e.Scale(-1.0) ==> Cross(r, y.Sub(x)) == x.Dot(m) - y.Dot(m)
  {}

  /** From all vertices to the point `x`. */
  ghost function ArmsBack(p: Vertices, x: Vec2): (r: seq<Vec2>)
    ensures |r| == |p| && forall i :: 0 <= i < |p| ==> r[i] == x.Sub(p[i])
  {
    seq(|p|, i requires 0 <= i < |p| => x.Sub(p[i]))
  }

  /** `f` and `h` are edges of the polygons, and all of `ws` lies between them. */
  ghost predicate Fan(p: Vertices, q: Vertices, f: Vec2, h: Vec2, ws: seq<Vec2>) {
    (IsEdge(p, f) || IsEdge(q, f)) && (IsEdge(p, h) || IsEdge(q, h)) && AllLeft(f, ws) && AllRight(h, ws)
  }

  lemma CornerBack(p: Vertices, q: Vertices, a: nat) returns (g: Vec2, k: Vec2)
    requires Convex(p) && a < |p| && !SinglePoint(p)
    ensures Fan(p, q, g, k, ArmsBack(p, p[a])) && g in ArmsBack(p, p[a]) && k in ArmsBack(p, p[a])
  {
    hide Cross, Vec2.Sub, Vec2.Scale, Convex, IsEdge;
    var f, h := Corner(p, a);
    g, k := f.Scale(-1.0), h.Scale(-1.0);
    IsEdgeBack(p, f);
    IsEdgeBack(p, h);
    var ws, us := Arms(p, p[a]), ArmsBack(p, p[a]);
    forall i | 0 <= i < |p|
      ensures us[i] == ws[i].Scale(-1.0) && Cross(g, us[i]) == Cross(f, ws[i]) && Cross(us[i], k) == Cross(ws[i], h)
    {
      Backward(p[i], p[a], f);
      Backward(p[i], p[a], h);
    }
    var b :| 0 <= b < |p| && ws[b] == f;
    var c :| 0 <= c < |p| && ws[c] == h;
    assert us[b] == g && us[c] == k;
  }

  lemma Backward(x: Vec2, y: Vec2, f: Vec2)
    ensures y.Sub(x) == x.Sub(y).Scale(-1.0)
    ensures Cross(f.Scale(-1.0), y.Sub(x)) == Cross(f, x.Sub(y))
    ensures Cross(y.Sub(x), f.Scale(-1.0)) == Cross(x.Sub(y), f)
  {}

  lemma ZeroFan(p: Vertices, q: Vertices, f: Vec2, h: Vec2, ws: seq<Vec2>)
    requires (IsEdge(p, f) || IsEdge(q, f)) && (IsEdge(p, h) || IsEdge(q, h))
    requires forall i :: 0 <= i < |ws| ==> ws[i] == ZERO
    ensures Fan(p, q, f, h, ws)
  {
    hide IsEdge;
  }

  /** An edge across the separating direction separates. */
  lemma LevelEdge(p: Vertices, q: Vertices, n: Vec2, f: Vec2)
    requires IsEdge(p, f) || IsEdge(q, f)
    requires n.Dot(f) == 0.0
    requires forall a, b :: 0 <= a < |p| && 0 <= b < |q| ==> n.Dot(q[b].Sub(p[a])) > 0.0
    ensures !PolygonsIntersect(p, q)
  {
    assert n.Dot(q[0].Sub(p[0])) > 0.0;
    assert n != ZERO;
    LevelCross(n, f);
    var back := f.Scale(-1.0);
    if IsEdge(p, f) { IsEdgeBack(p, f); } else { IsEdgeBack(q, f); }
    var r := if Cross(f, n) > 0.0 then f else back;
    hide Cross, Vec2.Dot, Vec2.Sub, PolygonsIntersect, IsEdge, Vec2.Scale;
    forall a, b | 0 <= a < |p| && 0 <= b < |q| ensures Cross(r, q[b].Sub(p[a])) > 0.0 {
      LevelSide(n, f, q[b].Sub(p[a]));
    }
    EdgeSeparates(p, q, r);
  }

  lemma LevelCross(n: Vec2, f: Vec2)
    requires n != ZERO && f != ZERO && n.Dot(f) == 0.0
    ensures Cross(f, n) != 0.0
  {
    SelfDot(f);
    SelfDot(n);
    Lagrange(f, n);
    hide Cross, Vec2.Dot;
    ProductPositive(f.Dot(f), n.Dot(n), f.Dot(f) * n.Dot(n));
  }

  lemma Lagrange(f: Vec2, n: Vec2)
    ensures f.Dot(f) * n.Dot(n) == Cross(f, n) * Cross(f, n) + n.Dot(f) * n.Dot(f)
  {}

  lemma LevelSide(n: Vec2, f: Vec2, d: Vec2)
    requires n != ZERO && n.Dot(f) == 0.0 && n.Dot(d) > 0.0
    ensures Cross(f, n) > 0.0 ==> Cross(f, d) > 0.0
    ensures Cross(f, n) < 0.0 ==> Cross(f.Scale(-1.0), d) > 0.0
  {
    assert Cross(f.Scale(-1.0), d) == -Cross(f, d);
    hide Cross, Vec2.Dot, Vec2.Scale;
    Plucker(n, f, n, d);
    SelfDot(n);
    SameSign(n.Dot(n), Cross(f, d), n.Dot(d), Cross(f, n));
  }

  lemma SameSign(k: real, x: real, l: real, y: real)
    requires k > 0.0 && l > 0.0 && k * x == l * y
    ensures x > 0.0 <==> y > 0.0
    ensures x < 0.0 <==> y < 0.0
  {
    if y > 0.0 { ProductPositive(l, y, l * y); }
    if y < 0.0 { ProductPositive(l, -y, -(l * y)); }
    if x > 0.0 { ProductPositive(k, x, k * x); }
    if x < 0.0 { ProductPositive(k, -x, -(k * x)); }
  }

  /** Every difference is the nearest one plus an arm of each polygon. */
  lemma Decompose(x: Vec2, y: Vec2, px: Vec2, qy: Vec2, r: Vec2)
    ensures Cross(r, qy.Sub(px)) == Cross(r, y.Sub(x)) + Cross(r, x.Sub(px)) + Cross(r, qy.Sub(y))
    ensures Cross(qy.Sub(px), r) == Cross(y.Sub(x), r) + Cross(x.Sub(px), r) + Cross(qy.Sub(y), r)
    ensures Cross(r.Scale(-1.0), qy.Sub(px)) == Cross(qy.Sub(px), r)
  {}

  lemma FirstRaySeparates(p: Vertices, q: Vertices, a: nat, b: nat, r: Vec2)
    requires a < |p| && b < |q| && (IsEdge(p, r) || IsEdge(q, r))
    requires AllLeft(r, ArmsBack(p, p[a])) && AllLeft(r, Arms(q, q[b])) && Cross(r, q[b].Sub(p[a])) > 0.0
    ensures !PolygonsIntersect(p, q)
  {
    hide Cross, Vec2.Sub, PolygonsIntersect, IsEdge;
    forall i, j | 0 <= i < |p| && 0 <= j < |q| ensures Cross(r, q[j].Sub(p[i])) > 0.0 {
      Decompose(p[a], q[b], p[i], q[j], r);
      assert ArmsBack(p, p[a])[i] == p[a].Sub(p[i]) && Arms(q, q[b])[j] == q[j].Sub(q[b]);
    }
    EdgeSeparates(p, q, r);
  }

  lemma LastRaySeparates(p: Vertices, q: Vertices, a: nat, b: nat, s: Vec2)
    requires a < |p| && b < |q| && (IsEdge(p, s) || IsEdge(q, s))
    requires AllRight(s, ArmsBack(p, p[a])) && AllRight(s, Arms(q, q[b])) && Cross(q[b].Sub(p[a]), s) > 0.0
    ensures !PolygonsIntersect(p, q)
  {
    hide Cross, Vec2.Sub, PolygonsIntersect, IsEdge, Vec2.Scale;
    if IsEdge(p, s) { IsEdgeBack(p, s); } else { IsEdgeBack(q, s); }
    forall i, j | 0 <= i < |p| && 0 <= j < |q| ensures Cross(s.Scale(-1.0), q[j].Sub(p[i])) > 0.0 {
      Decompose(p[a], q[b], p[i], q[j], s);
      assert ArmsBack(p, p[a])[i] == p[a].Sub(p[i]) && Arms(q, q[b])[j] == q[j].Sub(q[b]);
    }
    EdgeSeparates(p, q, s.Scale(-1.0));
  }

  lemma AllOnOneLine(p: Vertices, q: Vertices, a: nat, b: nat, r: Vec2)
    requires a < |p| && b < |q| && r != ZERO && Cross(r, q[b].Sub(p[a])) == 0.0
    requires forall i :: 0 <= i < |p| ==> Cross(r, p[a].Sub(p[i])) == 0.0
    requires forall j :: 0 <= j < |q| ==> Cross(r, q[j].Sub(q[b])) == 0.0
    ensures OneLine(p, q)
  {
    hide Cross, Vec2.Sub, Vec2.Dot;
    var m := Vec2(-r.y, r.x);
    var c := p[a].Dot(m);
    CrossAsDot(r, r, m, p[a], q[b]);
    forall i | 0 <= i < |p| ensures p[i].Dot(m) == c {
      CrossAsDot(r, r, m, p[i], p[a]);
    }
    forall j | 0 <= j < |q| ensures q[j].Dot(m) == c {
      CrossAsDot(r, r, m, q[b], q[j]);
    }
    assert m != ZERO && OnLine(p, m, c) && OnLine(q, m, c);
  }

  /** Between the first and the last ray of the two fans lie all arms: one of them separates, unless they coincide. */
  lemma Fanned(p: Vertices, q: Vertices, a: nat, b: nat, n: Vec2, r: Vec2, s: Vec2)
    requires a < |p| && b < |q| && n.Dot(q[b].Sub(p[a])) > 0.0 && n.Dot(r) > 0.0 && n.Dot(s) > 0.0 && Cross(r, s) >= 0.0
    requires Fan(p, q, r, s, ArmsBack(p, p[a])) && Fan(p, q, r, s, Arms(q, q[b]))
    ensures !PolygonsIntersect(p, q) || OneLine(p, q)
  {
    hide Cross, Vec2.Sub, Vec2.Dot, PolygonsIntersect, IsEdge, OneLine;
    var d := q[b].Sub(p[a]);
    if Cross(r, d) > 0.0 {
      FirstRaySeparates(p, q, a, b, r);
    } else if Cross(d, s) > 0.0 {
      LastRaySeparates(p, q, a, b, s);
    } else {
      Beside(n, d, r, s);
      forall i | 0 <= i < |p| ensures Cross(r, p[a].Sub(p[i])) == 0.0 {
        assert ArmsBack(p, p[a])[i] == p[a].Sub(p[i]);
        OnRay(n, r, s, p[a].Sub(p[i]));
      }
      forall j | 0 <= j < |q| ensures Cross(r, q[j].Sub(q[b])) == 0.0 {
        assert Arms(q, q[b])[j] == q[j].Sub(q[b]);
        OnRay(n, r, s, q[j].Sub(q[b]));
      }
      assert r != ZERO by { EdgeNotZero(p, q, r); }
      AllOnOneLine(p, q, a, b, r);
    }
  }

  lemma EdgeNotZero(p: Vertices, q: Vertices, r: Vec2)
    requires IsEdge(p, r) || IsEdge(q, r)
    ensures r != ZERO
  {}

  /** Two fans, of the vertex of `p` and the vertex of `q` nearest to each other along `n`. */
  lemma TwoFans(p: Vertices, q: Vertices, a: nat, b: nat, n: Vec2, f: Vec2, h: Vec2, g: Vec2, k: Vec2)
    requires a < |p| && b < |q|
    requires forall i, j :: 0 <= i < |p| && 0 <= j < |q| ==> n.Dot(q[j].Sub(p[i])) > 0.0
    requires Ahead(n, ArmsBack(p, p[a])) && Ahead(n, Arms(q, q[b]))
    requires Fan(p, q, f, h, Arms(q, q[b])) && Fan(p, q, g, k, ArmsBack(p, p[a]))
    requires forall x :: x in [f, h, g, k] ==> x in ArmsBack(p, p[a]) || x in Arms(q, q[b])
    ensures !PolygonsIntersect(p, q) || OneLine(p, q)
  {
    hide Cross, Vec2.Sub, Vec2.Dot, PolygonsIntersect, IsEdge, OneLine;
    var us, vs := ArmsBack(p, p[a]), Arms(q, q[b]);
    var edges := [f, h, g, k];
    assert edges[0] == f && edges[1] == h && edges[2] == g && edges[3] == k;
    forall x | x in edges ensures n.Dot(x) >= 0.0 {}
    if x :| x in edges && n.Dot(x) == 0.0 {
      LevelEdge(p, q, n, x);
    } else {
      CrossSwaps(f, g);
      CrossSwaps(h, k);
      var r := if Cross(f, g) >= 0.0 then f else g;
      var s := if Cross(k, h) >= 0.0 then h else k;
      if r == f { FirstRay(n, f, g, us); } else { FirstRay(n, g, f, vs); }
      if s == h { LastRay(n, k, h, us); } else { LastRay(n, h, k, vs); }
      assert s in us || s in vs;
      Fanned(p, q, a, b, n, r, s);
    }
  }

  // ---------------------------------------------------------------------- the theorem

  lemma DisjointConvex(p: Vertices, q: Vertices)
    requires Convex(p) && Convex(q)
    requires !exists x :: InHull(p, x) && InHull(q, x)
    ensures !PolygonsIntersect(p, q) || OneLine(p, q)
  {
    var n := SeparatingDirection(p, q);
    var a, b := Nearest(p, q, n);
    hide Cross, Vec2.Sub, Vec2.Dot, PolygonsIntersect, IsEdge, OneLine, Convex, InHull, SinglePoint;
    if SinglePoint(p) && SinglePoint(q) {
      TwoPoints(p, q);
    } else if SinglePoint(p) {
      var f, h := Corner(q, b);
      PointArms(p, a);
      ZeroFan(p, q, f, h, ArmsBack(p, p[a]));
      TwoFans(p, q, a, b, n, f, h, f, h);
    } else if SinglePoint(q) {
      var g, k := CornerBack(p, q, a);
      PointArms(q, b);
      ZeroFan(p, q, g, k, Arms(q, q[b]));
      TwoFans(p, q, a, b, n, g, k, g, k);
    } else {
      var f, h := Corner(q, b);
      var g, k := CornerBack(p, q, a);
      TwoFans(p, q, a, b, n, f, h, g, k);
    }
  }

  /** The vertices nearest to the separating line. */
  lemma Nearest(p: Vertices, q: Vertices, n: Vec2) returns (a: nat, b: nat)
    ensures a < |p| && b < |q| && Ahead(n, ArmsBack(p, p[a])) && Ahead(n, Arms(q, q[b]))
  {
    a := Minimum(p, n.Scale(-1.0));
    b := Minimum(q, n);
    forall i | 0 <= i < |p| ensures n.Dot(p[a].Sub(p[i])) >= 0.0 {
      DotDifference(n, p[a], p[i]);
    }
    forall j | 0 <= j < |q| ensures n.Dot(q[j].Sub(q[b])) >= 0.0 {
      DotDifference(n, q[j], q[b]);
    }
  }

  lemma DotDifference(n: Vec2, x: Vec2, y: Vec2)
    ensures n.Dot(x.Sub(y)) == x.Dot(n) - y.Dot(n) == y.Dot(n.Scale(-1.0)) - x.Dot(n.Scale(-1.0))
  {}

  lemma PointArms(p: Vertices, a: nat)
    requires SinglePoint(p) && a < |p|
    ensures forall i :: 0 <= i < |p| ==> ArmsBack(p, p[a])[i] == ZERO && Arms(p, p[a])[i] == ZERO
  {
    forall i | 0 <= i < |p| ensures p[i] == p[a] {}
  }

  lemma TwoPoints(p: Vertices, q: Vertices)
    requires SinglePoint(p) && SinglePoint(q)
    ensures OneLine(p, q)
  {
    var d := q[0].Sub(p[0]);
    var m := if d == ZERO then Vec2(1.0, 0.0) else Vec2(-d.y, d.x);
    assert p[0].Dot(m) == q[0].Dot(m);
    var c := p[0].Dot(m);
    assert OnLine(p, m, c) && OnLine(q, m, c);
  }

  /** If all vertices lie on one line, no axis separates, whether the hulls meet or not. */
  lemma OneLineReported(p: Vertices, q: Vertices)
    requires OneLine(p, q)
    ensures PolygonsIntersect(p, q)
  {
    hide Vec2.Dot, EdgeNormal, Separates;
    var m, c :| m != ZERO && OnLine(p, m, c) && OnLine(q, m, c);
    forall i {:trigger EdgeNormal(p, i)} | 0 <= i < |p| ensures !Separates(EdgeNormal(p, i), p, q) {
      FlatAxis(p, q, m, c, p[i], p[Previous(i, |p|)], EdgeNormal(p, i)) by { EdgeNormalIs(p, i); }
    }
    forall i {:trigger EdgeNormal(q, i)} | 0 <= i < |q| ensures !Separates(EdgeNormal(q, i), p, q) {
      FlatAxis(p, q, m, c, q[i], q[Previous(i, |q|)], EdgeNormal(q, i)) by { EdgeNormalIs(q, i); }
    }
  }

  lemma EdgeNormalIs(p: Vertices, i: nat)
    requires i < |p|
    ensures EdgeNormal(p, i) == Vec2(-Edge(p, i).y, Edge(p, i).x)
  {}

  lemma FlatAxis(p: Vertices, q: Vertices, m: Vec2, c: real, x: Vec2, y: Vec2, n: Vec2)
    requires m != ZERO && OnLine(p, m, c) && OnLine(q, m, c) && x.Dot(m) == c && y.Dot(m) == c
    requires n == Vec2(-x.Sub(y).y, x.Sub(y).x)
    ensures !Separates(n, p, q)
  {
    var e, d := x.Sub(y), q[0].Sub(p[0]);
    DotDifference(m, x, y);
    DotDifference(m, q[0], p[0]);
    CrossAsDot(e, e, n, p[0], q[0]);
    hide Cross, Vec2.Dot, Vec2.Sub;
    Plucker(m, e, m, d);
    SelfDot(m);
    assert m.Dot(e) == 0.0 && m.Dot(d) == 0.0;
    assert m.Dot(e) * Cross(m, d) == 0.0 && m.Dot(d) * Cross(e, m) == 0.0;
    SameSign(m.Dot(m), Cross(e, d), 1.0, 0.0);
    assert p[0].Dot(n) == q[0].Dot(n);
  }

  /** Exactness of the separating axis test: convex polygons are reported exactly when their hulls share a point
      or all their vertices lie on one line. */
  lemma ConvexExact(p: Vertices, q: Vertices)
    requires Convex(p) && Convex(q)
    ensures PolygonsIntersect(p, q) <==> (exists x :: InHull(p, x) && InHull(q, x)) || OneLine(p, q)
  {
    hide PolygonsIntersect, InHull, OneLine, Convex;
    if OneLine(p, q) {
      OneLineReported(p, q);
    } else if x :| InHull(p, x) && InHull(q, x) {
      if !PolygonsIntersect(p, q) { PolygonsApart(p, q, x); }
    } else {
      DisjointConvex(p, q);
    }
  }

  /** Some vertex lies off the line of some edge. */
  predicate HasArea(p: Vertices) {
    exists i: nat, k: nat {:trigger Edge(p, i), p[k]} :: i < |p| && k < |p| && Cross(Edge(p, i), p[k].Sub(p[i])) != 0.0
  }

  /** In particular the test is exact as soon as one of the two convex polygons has area. */
  lemma ConvexWithAreaExact(p: Vertices, q: Vertices)
    requires Convex(p) && Convex(q) && (HasArea(p) || HasArea(q))
    ensures PolygonsIntersect(p, q) <==> exists x :: InHull(p, x) && InHull(q, x)
  {
    ConvexExact(p, q);
    if HasArea(p) { AreaOffLine(p, q, p); } else { AreaOffLine(p, q, q); }
  }

  lemma AreaOffLine(p: Vertices, q: Vertices, r: Vertices)
    requires HasArea(r) && (r == p || r == q)
    ensures !OneLine(p, q)
  {
    if OneLine(p, q) {
      var m, c :| m != ZERO && OnLine(p, m, c) && OnLine(q, m, c);
      var i: nat, k: nat {:trigger Edge(r, i), r[k]} :| i < |r| && k < |r| && Cross(Edge(r, i), r[k].Sub(r[i])) != 0.0;
      OffLine(m, r[i], r[Previous(i, |r|)], r[k]);
    }
  }

  lemma OffLine(m: Vec2, x: Vec2, y: Vec2, z: Vec2)
    requires m != ZERO && x.Dot(m) == y.Dot(m) == z.Dot(m)
    ensures Cross(x.Sub(y), z.Sub(x)) == 0.0
  {
    var e, d := x.Sub(y), z.Sub(x);
    DotDifference(m, x, y);
    DotDifference(m, z, x);
    hide Cross, Vec2.Dot, Vec2.Sub;
    Plucker(m, e, m, d);
    SelfDot(m);
    assert m.Dot(e) == 0.0 && m.Dot(d) == 0.0;
    assert m.Dot(e) * Cross(m, d) == 0.0 && m.Dot(d) * Cross(e, m) == 0.0;
    SameSign(m.Dot(m), Cross(e, d), 1.0, 0.0);
  }

  // ----------------------------------------------------------------- where it goes wrong

  const LEFT_SEGMENT: Vertices := [ZERO, Vec2(1.0, 0.0)]
  const RIGHT_SEGMENT: Vertices := [Vec2(2.0, 0.0), Vec2(3.0, 0.0)]

  /** Two segments on one line, apart, are reported. */
  lemma CollinearSegmentsReported(x: Vec2)
    ensures Convex(LEFT_SEGMENT) && Convex(RIGHT_SEGMENT)
    ensures PolygonsIntersect(LEFT_SEGMENT, RIGHT_SEGMENT)
    ensures !(InHull(LEFT_SEGMENT, x) && InHull(RIGHT_SEGMENT, x))
  {
    hide InHull, PolygonsIntersect, Separates, Convex, OneLine, Vec2.Dot;
    FlatIsConvex(LEFT_SEGMENT);
    FlatIsConvex(RIGHT_SEGMENT);
    FlatOnLine(LEFT_SEGMENT, RIGHT_SEGMENT);
    OneLineReported(LEFT_SEGMENT, RIGHT_SEGMENT);
    SegmentsApart();
    SeparatesKeepsApart(Vec2(1.0, 0.0), LEFT_SEGMENT, RIGHT_SEGMENT, x);
  }

  lemma SegmentsApart()
    ensures Separates(Vec2(1.0, 0.0), LEFT_SEGMENT, RIGHT_SEGMENT)
  {
    hide Separates;
    ApartAlong(LEFT_SEGMENT, RIGHT_SEGMENT, Vec2(1.0, 0.0), 1.0, 2.0);
  }

  lemma FlatOnLine(p: Vertices, q: Vertices)
    requires (forall k :: 0 <= k < |p| ==> p[k].y == 0.0) && forall k :: 0 <= k < |q| ==> q[k].y == 0.0
    ensures OneLine(p, q)
  {
    var m := Vec2(0.0, 1.0);
    assert OnLine(p, m, 0.0) && OnLine(q, m, 0.0);
  }

  lemma FlatIsConvex(p: Vertices)
    requires forall k :: 0 <= k < |p| ==> p[k].y == 0.0
    ensures Convex(p)
  {
    assert TurnsLeft(p);
  }

  lemma ApartAlong(p: Vertices, q: Vertices, n: Vec2, c: real, d: real)
    requires c < d
    requires forall i :: 0 <= i < |p| ==> p[i].Dot(n) <= c
    requires forall i :: 0 <= i < |q| ==> q[i].Dot(n) >= d
    ensures Separates(n, p, q)
  {}

  /** A dart with a notch at the top, and a triangle with a corner over the notch. */
  const DART: Vertices := [ZERO, Vec2(5.0, -10.0), Vec2(10.0, 0.0), Vec2(5.0, -4.0)]
  const TRIANGLE: Vertices := [Vec2(5.0, 1.0), Vec2(7.0, 6.0), Vec2(3.0, 5.0)]

  /** With area but without convexity a positive answer can be wrong as well: the axis that separates the dart from
      the triangle is normal to the line across the notch, which is not an edge. */
  lemma DartReported(x: Vec2)
    ensures HasArea(DART) && HasArea(TRIANGLE) && Convex(TRIANGLE) && !Convex(DART)
    ensures PolygonsIntersect(DART, TRIANGLE)
    ensures !(InHull(DART, x) && InHull(TRIANGLE, x))
  {
    hide InHull, Separates, PolygonsIntersect, HasArea, Convex;
    DartOverlaps();
    DartBends();
    DartApart();
    SeparatesKeepsApart(Vec2(0.0, 1.0), DART, TRIANGLE, x);
  }

  lemma DartOverlaps()
    ensures PolygonsIntersect(DART, TRIANGLE)
  {
    hide Separates, EdgeNormal;
    forall i {:trigger EdgeNormal(DART, i)} | 0 <= i < |DART| ensures !Separates(EdgeNormal(DART, i), DART, TRIANGLE) {
      DartAxis(i);
    }
    forall i {:trigger EdgeNormal(TRIANGLE, i)} | 0 <= i < |TRIANGLE|
      ensures !Separates(EdgeNormal(TRIANGLE, i), DART, TRIANGLE)
    {
      TriangleAxis(i);
    }
  }

  lemma DartApart()
    ensures Separates(Vec2(0.0, 1.0), DART, TRIANGLE)
  {
    hide Separates;
    ApartAlong(DART, TRIANGLE, Vec2(0.0, 1.0), 0.0, 1.0);
  }

  lemma DartBends()
    ensures HasArea(DART) && HasArea(TRIANGLE) && Convex(TRIANGLE) && !Convex(DART)
  {
    Turn(DART, 1, 2, Vec2(5.0, -10.0), Vec2(5.0, 10.0));
    Turn(DART, 3, 1, Vec2(-5.0, -4.0), Vec2(0.0, -6.0));
    Turn(DART, 3, 0, Vec2(-5.0, -4.0), Vec2(-5.0, 4.0));
    Turn(TRIANGLE, 1, 2, Vec2(2.0, 5.0), Vec2(-4.0, -1.0));
    TriangleTurnsLeft();
    hide Cross, Edge;
  }

  lemma Turn(p: Vertices, i: nat, k: nat, e: Vec2, d: Vec2)
    requires i < |p| && k < |p| && e == p[i].Sub(p[Previous(i, |p|)]) && d == p[k].Sub(p[i])
    ensures Cross(Edge(p, i), p[k].Sub(p[i])) == e.x * d.y - e.y * d.x
  {}

  lemma TriangleTurnsLeft()
    ensures TurnsLeft(TRIANGLE)
  {
    forall i: nat, k: nat {:trigger Edge(TRIANGLE, i), TRIANGLE[k]} | i < 3 && k < 3
      ensures Cross(Edge(TRIANGLE, i), TRIANGLE[k].Sub(TRIANGLE[i])) >= 0.0
    {
      match i
      case 0 => Turn(TRIANGLE, i, k, Vec2(2.0, -4.0), TRIANGLE[k].Sub(TRIANGLE[0]));
      case 1 => Turn(TRIANGLE, i, k, Vec2(2.0, 5.0), TRIANGLE[k].Sub(TRIANGLE[1]));
      case 2 => Turn(TRIANGLE, i, k, Vec2(-4.0, -1.0), TRIANGLE[k].Sub(TRIANGLE[2]));
    }
  }

  /** Projections that overlap: some vertex of each lies at or beyond one of the other. */
  lemma Overlapping(x: real, y: real, p: Vertices, q: Vertices, a: nat, b: nat, c: nat, d: nat)
    requires a < |p| && b < |q| && c < |p| && d < |q|
    requires p[a].x * x + p[a].y * y >= q[b].x * x + q[b].y * y
    requires p[c].x * x + p[c].y * y <= q[d].x * x + q[d].y * y
    ensures !Separates(Vec2(x, y), p, q)
  {}

  lemma DartAxis(i: nat)
    requires i < |DART|
    ensures !Separates(EdgeNormal(DART, i), DART, TRIANGLE)
  {
    hide Separates;
    hide Vec2.Dot;
    var n := EdgeNormal(DART, i);
    match i
    case 0 => assert n == Vec2(-4.0, -5.0); Overlapping(-4.0, -5.0, DART, TRIANGLE, 1, 0, 2, 0);
    case 1 => assert n == Vec2(10.0, 5.0); Overlapping(10.0, 5.0, DART, TRIANGLE, 2, 0, 0, 0);
    case 2 => assert n == Vec2(-10.0, 5.0); Overlapping(-10.0, 5.0, DART, TRIANGLE, 0, 0, 1, 0);
    case 3 => assert n == Vec2(4.0, -5.0); Overlapping(4.0, -5.0, DART, TRIANGLE, 1, 0, 0, 0);
  }

  lemma TriangleAxis(i: nat)
    requires i < |TRIANGLE|
    ensures !Separates(EdgeNormal(TRIANGLE, i), DART, TRIANGLE)
  {
    hide Separates;
    hide Vec2.Dot;
    var n := EdgeNormal(TRIANGLE, i);
    match i
    case 0 => assert n == Vec2(4.0, 2.0); Overlapping(4.0, 2.0, DART, TRIANGLE, 2, 0, 0, 0);
    case 1 => assert n == Vec2(-5.0, 2.0); Overlapping(-5.0, 2.0, DART, TRIANGLE, 0, 0, 1, 0);
    case 2 => assert n == Vec2(1.0, -4.0); Overlapping(1.0, -4.0, DART, TRIANGLE, 1, 0, 0, 0);
  }

  // ------------------------------------------------------------------ rectangles as polygons

  /** The pairs tested on separating axes. */
  predicate AxisTest(s: Shape, t: Shape) {
    && !s.CircleShape? && !t.CircleShape? && (s.PolygonShape? || t.PolygonShape?)
  }

  /** The vertices a shape is tested with. */
  function Outline(s: Shape): Vertices
    requires !s.CircleShape?
  {
    if s.RectangleShape? then s.rect.Corners() else s.vertices
  }

  predicate Regular(s: Shape) {
    match s
    case CircleShape(_) => true
    case RectangleShape(r) => r.Ordered()
    case PolygonShape(vs) => Convex(vs)
  }

  lemma CornersConvex(r: Rectangle)
    requires r.Ordered()
    ensures Convex(r.Corners())
  {
    var p := r.Corners();
    var w, h := r.maxBound.x - r.minBound.x, r.maxBound.y - r.minBound.y;
    ProductNonNegative(w, h);
    forall i: nat, k: nat {:trigger Edge(p, i), p[k]} | i < 4 && k < 4
        ensures Cross(Edge(p, i), p[k].Sub(p[i])) <= 0.0 {
      var d := p[k].Sub(p[i]);
      match i
      case 0 => Turn(p, i, k, Vec2(-w, 0.0), d);
      case 1 => Turn(p, i, k, Vec2(0.0, h), d);
      case 2 => Turn(p, i, k, Vec2(w, 0.0), d);
      case 3 => Turn(p, i, k, Vec2(0.0, -h), d);
    }
    assert TurnsRight(p);
  }

  lemma HullInRectangle(p: Vertices, r: Rectangle, x: Vec2)
    requires InHull(p, x) && forall i :: 0 <= i < |p| ==> r.Contains(p[i])
    ensures r.Contains(x)
  {
    HullBound(p, x, Vec2(1.0, 0.0), r.minBound.x);
    HullBound(p, x, Vec2(0.0, 1.0), r.minBound.y);
    HullBound(p, x, Vec2(-1.0, 0.0), -r.maxBound.x);
    HullBound(p, x, Vec2(0.0, -1.0), -r.maxBound.y);
  }

  lemma PointsOfOutline(s: Shape, x: Vec2)
    requires Regular(s) && !s.CircleShape?
    ensures PointOf(s, x) <==> InHull(Outline(s), x)
    ensures Convex(Outline(s))
  {
    if s.RectangleShape? {
      CornersConvex(s.rect);
      if s.rect.Contains(x) { RectangleInHull(s.rect, x); }
      if InHull(s.rect.Corners(), x) { HullInRectangle(s.rect.Corners(), s.rect, x); }
    }
  }

  lemma OneLineEitherWay(p: Vertices, q: Vertices)
    ensures OneLine(p, q) <==> OneLine(q, p)
  {}

  /** The meaning of `Overlap` for circles, ordered rectangles and convex polygons, except a polygon with a circle. */
  lemma OverlapIsCommonPoint(s: Shape, t: Shape)
    requires Regular(s) && Regular(t) && !PolygonAndCircle(s, t)
    ensures Overlap(s, t) <==> SharePoint(s, t) || (AxisTest(s, t) && OneLine(Outline(s), Outline(t)))
  {
    if AxisTest(s, t) {
      AxisTestIs(s, t);
    } else {
      OverlapExact(s, t);
    }
  }

  lemma AxisTestIs(s: Shape, t: Shape)
    requires Regular(s) && Regular(t) && AxisTest(s, t)
    ensures Overlap(s, t) <==> SharePoint(s, t) || OneLine(Outline(s), Outline(t))
  {
    hide InHull, PolygonsIntersect, OneLine, Convex, Regular;
    var p, q := Outline(s), Outline(t);
    forall x ensures PointOf(s, x) <==> InHull(p, x) {
      PointsOfOutline(s, x);
    }
    forall x ensures PointOf(t, x) <==> InHull(q, x) {
      PointsOfOutline(t, x);
    }
    PointsOfOutline(s, ZERO);
    PointsOfOutline(t, ZERO);
    OneLineEitherWay(p, q);
    ConvexExact(p, q);
    ConvexExact(q, p);
  }

  predicate Broad(r: Rectangle) { r.minBound.x < r.maxBound.x && r.minBound.y < r.maxBound.y }

  /** Against a rectangle with area a report of any polygon, convex or not, means that the rectangle meets every box
      that contains the vertices: two of the tested axes are the coordinate axes. */
  lemma ReportedMeetsBox(p: Vertices, r: Rectangle, box: Rectangle)
    requires Broad(r) && PolygonsIntersect(p, r.Corners()) && forall i :: 0 <= i < |p| ==> box.Contains(p[i])
    ensures RectanglesIntersect(box, r)
  {
    hide Separates;
    var q := r.Corners();
    var w, h := r.maxBound.x - r.minBound.x, r.maxBound.y - r.minBound.y;
    assert EdgeNormal(q, 1) == Vec2(-h, 0.0) && EdgeNormal(q, 2) == Vec2(0.0, w);
    if box.maxBound.x < r.minBound.x || r.maxBound.x < box.minBound.x {
      BesideInX(p, q, box, r, h);
    }
    if box.maxBound.y < r.minBound.y || r.maxBound.y < box.minBound.y {
      BesideInY(p, q, box, r, w);
    }
  }

  lemma BesideInX(p: Vertices, q: Vertices, box: Rectangle, r: Rectangle, h: real)
    requires h > 0.0 && (box.maxBound.x < r.minBound.x || r.maxBound.x < box.minBound.x)
    requires (forall i :: 0 <= i < |p| ==> box.Contains(p[i])) && forall i :: 0 <= i < |q| ==> r.Contains(q[i])
    ensures Separates(Vec2(-h, 0.0), p, q)
  {
    var n := Vec2(-h, 0.0);
    forall a, b | 0 <= a < |p| && 0 <= b < |q|
      ensures p[a].x < q[b].x ==> q[b].Dot(n) < p[a].Dot(n)
      ensures q[b].x < p[a].x ==> p[a].Dot(n) < q[b].Dot(n)
    {
      ScaledOrder(p[a].x, q[b].x, h);
    }
  }

  lemma BesideInY(p: Vertices, q: Vertices, box: Rectangle, r: Rectangle, w: real)
    requires w > 0.0 && (box.maxBound.y < r.minBound.y || r.maxBound.y < box.minBound.y)
    requires (forall i :: 0 <= i < |p| ==> box.Contains(p[i])) && forall i :: 0 <= i < |q| ==> r.Contains(q[i])
    ensures Separates(Vec2(0.0, w), p, q)
  {
    var n := Vec2(0.0, w);
    forall a, b | 0 <= a < |p| && 0 <= b < |q|
      ensures p[a].y < q[b].y ==> p[a].Dot(n) < q[b].Dot(n)
      ensures q[b].y < p[a].y ==> q[b].Dot(n) < p[a].Dot(n)
    {
      ScaledOrder(p[a].y, q[b].y, w);
    }
  }

  lemma ScaledOrder(x: real, y: real, k: real)
    requires k > 0.0
    ensures x < y ==> x * k < y * k && y * (-k) < x * (-k)
    ensures y < x ==> y * k < x * k && x * (-k) < y * (-k)
  {
    if x < y { ProductPositive(y - x, k, y * k - x * k); }
    if y < x { ProductPositive(x - y, k, x * k - y * k); }
  }
}
