/** Momentum and energy of the whole world across any number of contacts. */
module Conservation {
  import opened RealArith
  import opened Geometry
  import opened Contacts
  import opened ContactLaws

  /** A body with a negative mass is an unused slot of the world's array. */
  predicate Enabled(b: Body) { b.mass >= 0.0 }

  function BodyMomentum(b: Body): Vec2 { if Enabled(b) then b.velocity.Scale(b.mass) else ZERO }

  /** Twice the kinetic energy of a body. */
  function BodyEnergy(b: Body): real { if Enabled(b) then b.mass * b.velocity.LengthSq() else 0.0 }

  function Momentum(bs: seq<Body>): Vec2 {
    if bs == [] then ZERO else Momentum(bs[..|bs| - 1]).Add(BodyMomentum(bs[|bs| - 1]))
  }

  function TwiceEnergy(bs: seq<Body>): real {
    if bs == [] then 0.0 else TwiceEnergy(bs[..|bs| - 1]) + BodyEnergy(bs[|bs| - 1])
  }

  lemma {:induction false} MomentumUpdate(bs: seq<Body>, i: nat, b: Body)
    requires i < |bs|
    ensures Momentum(bs[i := b]) == Momentum(bs).Sub(BodyMomentum(bs[i])).Add(BodyMomentum(b))
  {
    hide BodyMomentum;
    var n := |bs| - 1;
    if i < n {
      MomentumUpdate(bs[..n], i, b);
      assert bs[i := b][..n] == bs[..n][i := b];
    } else {
      assert bs[i := b][..n] == bs[..n];
    }
  }

  lemma {:induction false} EnergyUpdate(bs: seq<Body>, i: nat, b: Body)
    requires i < |bs|
    ensures TwiceEnergy(bs[i := b]) == TwiceEnergy(bs) - BodyEnergy(bs[i]) + BodyEnergy(b)
  {
    hide BodyEnergy;
    var n := |bs| - 1;
    if i < n {
      EnergyUpdate(bs[..n], i, b);
      assert bs[i := b][..n] == bs[..n][i := b];
    } else {
      assert bs[i := b][..n] == bs[..n];
    }
  }

  /** Only velocities count. */
  lemma {:induction false} SameVelocitiesSameTotals(bs: seq<Body>, bs': seq<Body>)
    requires SameVelocities(bs, bs') && SameBodyKinds(bs, bs')
    ensures Momentum(bs) == Momentum(bs') && TwiceEnergy(bs) == TwiceEnergy(bs')
  {
    hide BodyMomentum, BodyEnergy;
    if bs != [] {
      var n := |bs| - 1;
      SameVelocitiesSameTotals(bs[..n], bs'[..n]);
      SameContribution(bs[n], bs'[n]);
    }
  }

  lemma SameContribution(b: Body, b': Body)
    requires b.velocity == b'.velocity && b.mass == b'.mass
    ensures BodyMomentum(b) == BodyMomentum(b') && BodyEnergy(b) == BodyEnergy(b')
  {
    hide Vec2.Scale, Vec2.LengthSq;
  }

  // --------------------------------------------------------------------- one contact

  lemma MassTimesInverse(m: real, a: real, x: real)
    requires a * m == 1.0
    ensures m * (x * a) == x
  {
    assert m * (x * a) == x * (a * m);
  }

  /** The energy of one coordinate after a push by `x / m`. */
  lemma AxisEnergy(m: real, a: real, v: real, x: real)
    requires a * m == 1.0
    ensures m * ((v + x * a) * (v + x * a)) == m * (v * v) + 2.0 * (x * v) + (x * x) * a
  {
    MassTimesInverse(m, a, x);
    var w := x * a;
    assert m * ((v + w) * (v + w)) == m * (v * v) + 2.0 * ((m * w) * v) + (m * w) * w;
  }

  lemma PushedBody(b: Body, x: Vec2, a: real)
    requires b.mass > 0.0 && a == 1.0 / b.mass
    ensures var b' := b.(velocity := b.velocity.Add(x.Scale(a)));
      && BodyMomentum(b') == BodyMomentum(b).Add(x)
      && BodyEnergy(b') == BodyEnergy(b) + 2.0 * x.Dot(b.velocity) + x.LengthSq() * a
  {
    hide Vec2.Add, Vec2.Scale, Vec2.Dot, Vec2.LengthSq;
    Inverse(b.mass, a);
    PushedMomentum(b.velocity, b.mass, x, a);
    PushedEnergy(b.velocity, b.mass, x, a);
  }

  lemma PushedMomentum(v: Vec2, m: real, x: Vec2, a: real)
    requires a * m == 1.0
    ensures v.Add(x.Scale(a)).Scale(m) == v.Scale(m).Add(x)
  {
    MassTimesInverse(m, a, x.x);
    MassTimesInverse(m, a, x.y);
  }

  lemma PushedEnergy(v: Vec2, m: real, x: Vec2, a: real)
    requires a * m == 1.0
    ensures m * v.Add(x.Scale(a)).LengthSq() == m * v.LengthSq() + 2.0 * x.Dot(v) + x.LengthSq() * a
  {
    var w := v.Add(x.Scale(a));
    AxisEnergy(m, a, v.x, x.x);
    AxisEnergy(m, a, v.y, x.y);
    Distribute(m, w.x * w.x, w.y * w.y, w.LengthSq());
    Distribute(m, v.x * v.x, v.y * v.y, v.LengthSq());
    Distribute(a, x.x * x.x, x.y * x.y, x.LengthSq());
  }

  lemma Distribute(m: real, p: real, q: real, s: real)
    requires s == p + q
    ensures m * s == m * p + m * q && s * m == p * m + q * m
  {}

  /** Between two dynamic bodies the pushes are equal and opposite in momentum. */
  lemma DynamicPair(bs: seq<Body>, i: nat, j: nat, n: Vec2, e: real)
    requires TwoBodies(bs, i, j) && i != j && bs[i].bodyType == DYNAMIC && bs[j].bodyType == DYNAMIC
    requires !(SeparatingVelocity(bs, i, j, n) > 0.0)
    ensures var x := Impulse(bs, i, j, n, e);
      VelocityPass(bs, i, j, n, e) ==
      bs[i := bs[i].(velocity := bs[i].velocity.Add(x.Scale(1.0 / bs[i].mass)))]
        [j := bs[j].(velocity := bs[j].velocity.Add(x.Scale(-1.0).Scale(1.0 / bs[j].mass)))]
  {
    hide Impulse, SeparatingVelocity;
    var x, b := Impulse(bs, i, j, n, e), 1.0 / bs[j].mass;
    assert x.Scale(b).Scale(-1.0) == x.Scale(-1.0).Scale(b);
  }

  /** The impulse along a unit normal takes at least as much energy as it gives. */
  lemma ImpulseEnergy(separating: real, e: real, k: real, size: real)
    requires separating <= 0.0 && 0.0 <= e <= 1.0 && k > 0.0 && size == ImpulseSize(separating, e, k)
    ensures 2.0 * (size * separating) + (size * size) * k <= 0.0
  {
    ImpulseTimes(separating, e, k);
    var t := -separating;
    ProductNonNegative(t, e);
    DivSign(t * e + t, k, size);
    assert -separating * e - separating == t * e + t;
    assert (size * size) * k == size * (size * k) == size * (t * e + t);
    ProductNonNegative(size, t);
    ProductNonNegative(size * t, 1.0 - e);
    assert 2.0 * (size * separating) + size * (t * e + t) == -((size * t) * (1.0 - e));
  }

  lemma TwoUpdates(bs: seq<Body>, i: nat, j: nat, bi: Body, bj: Body)
    requires i < |bs| && j < |bs| && i != j
    requires BodyMomentum(bi).Add(BodyMomentum(bj)) == BodyMomentum(bs[i]).Add(BodyMomentum(bs[j]))
    ensures Momentum(bs[i := bi][j := bj]) == Momentum(bs)
    ensures TwiceEnergy(bs[i := bi][j := bj]) ==
            TwiceEnergy(bs) - BodyEnergy(bs[i]) - BodyEnergy(bs[j]) + BodyEnergy(bi) + BodyEnergy(bj)
  {
    hide BodyMomentum, BodyEnergy, Momentum, TwiceEnergy, Vec2.Add, Vec2.Sub;
    MomentumUpdate(bs, i, bi);
    MomentumUpdate(bs[i := bi], j, bj);
    EnergyUpdate(bs, i, bi);
    EnergyUpdate(bs[i := bi], j, bj);
    Exchange(Momentum(bs), BodyMomentum(bs[i]), BodyMomentum(bs[j]), BodyMomentum(bi), BodyMomentum(bj));
  }

  lemma Exchange(m: Vec2, p: Vec2, q: Vec2, p': Vec2, q': Vec2)
    requires p'.Add(q') == p.Add(q)
    ensures m.Sub(p).Add(p').Sub(q).Add(q') == m
  {}

  predicate BothDynamic(bs: seq<Body>, i: nat, j: nat) {
    TwoBodies(bs, i, j) && bs[i].bodyType == DYNAMIC && bs[j].bodyType == DYNAMIC
  }

  /** The velocity pass of two dynamic bodies; all other slots may hold anything. */
  lemma VelocityPassConserves(bs: seq<Body>, i: nat, j: nat, n: Vec2, e: real)
    requires BothDynamic(bs, i, j) && UnitOrZero(n) && 0.0 <= e <= 1.0
    ensures var r := VelocityPass(bs, i, j, n, e);
      Momentum(r) == Momentum(bs) && TwiceEnergy(r) <= TwiceEnergy(bs)
  {
    var separating := SeparatingVelocity(bs, i, j, n);
    if i == j || n == ZERO {
      SamePoint(bs, i, j, n);
      ZeroImpulse(bs, i, j, n, e);
      NoImpulse(bs, i, j, n, e);
    } else if !(separating > 0.0) {
      DynamicPair(bs, i, j, n, e);
      DynamicPairConserves(bs, i, j, n, e);
    }
  }

  lemma DynamicPairConserves(bs: seq<Body>, i: nat, j: nat, n: Vec2, e: real)
    requires TwoBodies(bs, i, j) && i != j && n.LengthSq() == 1.0 && 0.0 <= e <= 1.0
    requires !(SeparatingVelocity(bs, i, j, n) > 0.0)
    ensures var x := Impulse(bs, i, j, n, e);
      var r := bs[i := bs[i].(velocity := bs[i].velocity.Add(x.Scale(1.0 / bs[i].mass)))]
                 [j := bs[j].(velocity := bs[j].velocity.Add(x.Scale(-1.0).Scale(1.0 / bs[j].mass)))];
      Momentum(r) == Momentum(bs) && TwiceEnergy(r) <= TwiceEnergy(bs)
  {
    hide Vec2.Scale, Vec2.Add, Vec2.Dot, Vec2.Sub, Vec2.LengthSq, BodyEnergy, BodyMomentum, ImpulseSize, Momentum,
        TwiceEnergy;
    var x, a, b := Impulse(bs, i, j, n, e), 1.0 / bs[i].mass, 1.0 / bs[j].mass;
    var separating, k := SeparatingVelocity(bs, i, j, n), InverseMassSum(bs, i, j);
    var size := ImpulseSize(separating, e, k);
    var bi := bs[i].(velocity := bs[i].velocity.Add(x.Scale(a)));
    var bj := bs[j].(velocity := bs[j].velocity.Add(x.Scale(-1.0).Scale(b)));
    PushedBody(bs[i], x, a);
    PushedBody(bs[j], x.Scale(-1.0), b);
    OppositePushes(BodyMomentum(bs[i]), BodyMomentum(bs[j]), x);
    TwoUpdates(bs, i, j, bi, bj);
    EnergyGain(n, size, bs[i].velocity, bs[j].velocity, a, b);
    ImpulseEnergy(separating, e, k, size);
  }

  lemma OppositePushes(p: Vec2, q: Vec2, x: Vec2)
    ensures p.Add(x).Add(q.Add(x.Scale(-1.0))) == p.Add(q)
  {}

  lemma EnergyGain(n: Vec2, size: real, v: Vec2, w: Vec2, a: real, b: real)
    requires n.LengthSq() == 1.0
    ensures var x := n.Scale(size);
      2.0 * x.Dot(v) + x.LengthSq() * a + 2.0 * x.Scale(-1.0).Dot(w) + x.Scale(-1.0).LengthSq() * b ==
      2.0 * (size * v.Sub(w).Dot(n)) + (size * size) * (a + b)
  {
    var x := n.Scale(size);
    assert x.LengthSq() == (size * size) * n.LengthSq();
    assert x.Scale(-1.0).LengthSq() == x.LengthSq();
    assert x.Dot(v) + x.Scale(-1.0).Dot(w) == size * v.Sub(w).Dot(n);
  }

  /** One contact of dynamic bodies conserves momentum and never adds energy, in either order of the pair. */
  lemma ResolvedConserves(len: Vec2 -> real, bs: seq<Body>, i: nat, s: Shape, ri: real, j: nat, t: Shape, rj: real)
    requires IsLength(len) && BothDynamic(bs, i, j) && 0.0 <= ri <= 1.0 && 0.0 <= rj <= 1.0
    ensures var r := Resolved(len, bs, i, s, ri, j, t, rj);
      Momentum(r) == Momentum(bs) && TwiceEnergy(r) <= TwiceEnergy(bs)
  {
    TouchNormal(len, s, bs[i].position, t, bs[j].position);
    TouchNormal(len, t, bs[j].position, s, bs[i].position);
    MixInRange(bs, i, j, ri, rj);
    MixInRange(bs, j, i, rj, ri);
    hide TouchOf, MixedRestitution, UnitOrZero, Respond;
    if s.RectangleShape? && t.CircleShape? {
      var touch, e := TouchOf(len, t, bs[j].position, s, bs[i].position), MixedRestitution(bs, j, i, rj, ri);
      RespondConserves(bs, j, i, touch, e);
      RespondConserves(Respond(bs, j, i, touch, e), j, i, touch, e);
    } else {
      RespondConserves(bs, i, j, TouchOf(len, s, bs[i].position, t, bs[j].position),
          MixedRestitution(bs, i, j, ri, rj));
    }
  }

  lemma RespondConserves(bs: seq<Body>, i: nat, j: nat, touch: Touch, e: real)
    requires BothDynamic(bs, i, j) && UnitOrZero(touch.normal) && 0.0 <= e <= 1.0
    ensures var r := Respond(bs, i, j, touch, e);
      Momentum(r) == Momentum(bs) && TwiceEnergy(r) <= TwiceEnergy(bs)
  {
    hide VelocityPass, PositionPass, UnitOrZero;
    var v := VelocityPass(bs, i, j, touch.normal, e);
    VelocityPassConserves(bs, i, j, touch.normal, e);
    SameVelocitiesSameTotals(v, PositionPass(v, i, j, touch.normal, touch.penetration));
  }
}
