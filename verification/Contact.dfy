/** Collision response: how a contact changes the velocities and positions of its two bodies. */
module Contacts {
  import opened RealArith
  import opened Geometry

  datatype BodyType = DYNAMIC | STATIC | NONE

  datatype Body = Body(position: Vec2, velocity: Vec2, mass: real, bodyType: BodyType)

  const UP := Vec2(0.0, 1.0)

  datatype Touch = Touch(normal: Vec2, penetration: real)

  function Direction(len: Vec2 -> real, delta: Vec2): Vec2 {
    if len(delta) > 0.0 then delta.Scale(1.0 / len(delta)) else UP
  }

  /** Normal and penetration of two shapes placed at the positions of their bodies; the normal points
      from the second to the first. Polygons leave both at zero. */
  function TouchOf(len: Vec2 -> real, s: Shape, p: Vec2, t: Shape, q: Vec2): Touch {
    match (s, t)
    case (CircleShape(a), CircleShape(b)) =>
      var delta := p.Add(a.center).Sub(q).Sub(b.center);
      Touch(Direction(len, delta), a.radius + b.radius - len(delta))
    case (CircleShape(a), RectangleShape(b)) =>
      var center := p.Add(a.center);
      var delta := center.Sub(ClosestInRectangle(b.Move(q), center));
      Touch(Direction(len, delta), a.radius - len(delta))
    case (RectangleShape(a), RectangleShape(b)) =>
      var delta := p.Add(a.Center()).Sub(q).Sub(b.Center());
      var depth := a.HalfSize().Add(b.HalfSize()).Sub(Vec2(Abs(delta.x), Abs(delta.y)));
      if depth.x < depth.y then Touch(Vec2(if delta.x > 0.0 then 1.0 else -1.0, 0.0), depth.x)
      else Touch(Vec2(0.0, if delta.y > 0.0 then 1.0 else -1.0), depth.y)
    case _ => Touch(ZERO, 0.0)
  }

  // ------------------------------------------------------ the two passes over the bodies

  predicate TwoBodies(bs: seq<Body>, i: nat, j: nat) {
    i < |bs| && j < |bs| && bs[i].mass > 0.0 && bs[j].mass > 0.0
  }

  /** Neither body has the type `NONE`, which takes no part in a response. */
  predicate Typed(bs: seq<Body>, i: nat, j: nat)
    requires i < |bs| && j < |bs|
  {
    bs[i].bodyType != NONE && bs[j].bodyType != NONE
  }

  predicate SameBodyKinds(bs: seq<Body>, bs': seq<Body>) {
    |bs| == |bs'| && forall k :: 0 <= k < |bs| ==> bs[k].mass == bs'[k].mass && bs[k].bodyType == bs'[k].bodyType
  }

  function Push(bs: seq<Body>, i: nat, dv: Vec2): (r: seq<Body>)
    requires i < |bs|
    ensures |r| == |bs|
  {
    bs[i := bs[i].(velocity := bs[i].velocity.Add(dv))]
  }

  function Shift(bs: seq<Body>, i: nat, d: Vec2): (r: seq<Body>)
    requires i < |bs|
    ensures |r| == |bs|
  {
    bs[i := bs[i].(position := bs[i].position.Add(d))]
  }

  function SeparatingVelocity(bs: seq<Body>, i: nat, j: nat, n: Vec2): real
    requires i < |bs| && j < |bs|
  {
    bs[i].velocity.Sub(bs[j].velocity).Dot(n)
  }

  function Impulse(bs: seq<Body>, i: nat, j: nat, n: Vec2, e: real): Vec2
    requires TwoBodies(bs, i, j)
  {
    n.Scale(ImpulseSize(SeparatingVelocity(bs, i, j, n), e, InverseMassSum(bs, i, j)))
  }

  function ImpulseSize(separating: real, e: real, k: real): real
    requires k > 0.0
  {
    (-separating * e - separating) / k
  }

  function InverseMassSum(bs: seq<Body>, i: nat, j: nat): (k: real)
    requires TwoBodies(bs, i, j)
    ensures k > 0.0
  {
    DivSign(1.0, bs[i].mass, 1.0 / bs[i].mass);
    DivSign(1.0, bs[j].mass, 1.0 / bs[j].mass);
    1.0 / bs[i].mass + 1.0 / bs[j].mass
  }

  /** A static body does not take its share of the impulse: the other body takes it too, in the
      opposite sense, even when that other body is itself static. */
  function VelocityPass(bs: seq<Body>, i: nat, j: nat, n: Vec2, e: real): (r: seq<Body>)
    requires TwoBodies(bs, i, j)
    ensures |r| == |bs|
    ensures forall k :: 0 <= k < |bs| ==> r[k] == bs[k].(velocity := r[k].velocity)
    ensures forall k :: 0 <= k < |bs| && k != i && k != j ==> r[k] == bs[k]
  {
    if SeparatingVelocity(bs, i, j, n) > 0.0 then bs
    else
      var impulse := Impulse(bs, i, j, n, e);
      var a, b := impulse.Scale(1.0 / bs[i].mass), impulse.Scale(1.0 / bs[j].mass);
      var r1 := if bs[i].bodyType == DYNAMIC then Push(bs, i, a) else bs;
      var r2 := if bs[j].bodyType == DYNAMIC then Push(r1, j, b.Scale(-1.0)) else r1;
      var r3 := if bs[i].bodyType == STATIC then Push(r2, j, a.Scale(-1.0)) else r2;
      if bs[j].bodyType == STATIC then Push(r3, i, b) else r3
  }

  /** The four conditional pushes, each on the bodies as the previous one left them. */
  lemma SameBodies(bs: seq<Body>, i: nat, j: nat, n: Vec2, e: real,
                   r1: seq<Body>, r2: seq<Body>, r3: seq<Body>, r4: seq<Body>)
    requires TwoBodies(bs, i, j) && !(SeparatingVelocity(bs, i, j, n) > 0.0)
    requires var impulse := Impulse(bs, i, j, n, e);
      var a, b := impulse.Scale(1.0 / bs[i].mass), impulse.Scale(1.0 / bs[j].mass);
      && r1 == (if bs[i].bodyType == DYNAMIC then Push(bs, i, a) else bs)
      && r2 == (if r1[j].bodyType == DYNAMIC then Push(r1, j, b.Scale(-1.0)) else r1)
      && r3 == (if r2[i].bodyType == STATIC then Push(r2, j, a.Scale(-1.0)) else r2)
      && r4 == (if r3[j].bodyType == STATIC then Push(r3, i, b) else r3)
    ensures r4 == VelocityPass(bs, i, j, n, e) && TwoBodies(r4, i, j)
  {
    hide Vec2.Scale, Vec2.Add, Impulse, SeparatingVelocity;
  }

  function PositionPass(bs: seq<Body>, i: nat, j: nat, n: Vec2, penetration: real): (r: seq<Body>)
    requires TwoBodies(bs, i, j)
    ensures |r| == |bs|
    ensures forall k :: 0 <= k < |bs| ==> r[k] == bs[k].(position := r[k].position)
    ensures forall k :: 0 <= k < |bs| && k != i && k != j ==> r[k] == bs[k]
  {
    if penetration <= 0.0 then bs
    else
      var move := n.Scale(penetration / InverseMassSum(bs, i, j));
      var r1 := if bs[i].bodyType == DYNAMIC then Shift(bs, i, move.Scale(1.0 / bs[i].mass)) else bs;
      if bs[j].bodyType == DYNAMIC then Shift(r1, j, move.Scale(1.0 / bs[j].mass).Scale(-1.0)) else r1
  }

  function MixedRestitution(bs: seq<Body>, i: nat, j: nat, ri: real, rj: real): real
    requires TwoBodies(bs, i, j)
  {
    (bs[i].mass * ri + bs[j].mass * rj) / (bs[i].mass + bs[j].mass)
  }

  lemma SameMix(bs: seq<Body>, bs': seq<Body>, i: nat, j: nat, ri: real, rj: real)
    requires TwoBodies(bs, i, j) && TwoBodies(bs', i, j)
    requires bs'[i].mass == bs[i].mass && bs'[j].mass == bs[j].mass
    ensures MixedRestitution(bs', i, j, ri, rj) == MixedRestitution(bs, i, j, ri, rj)
  {}

  /** One pass over velocities, then one over positions. */
  function Respond(bs: seq<Body>, i: nat, j: nat, touch: Touch, e: real): (r: seq<Body>)
    requires TwoBodies(bs, i, j)
    ensures |r| == |bs| && TwoBodies(r, i, j)
    ensures forall k :: 0 <= k < |bs| ==> r[k] == bs[k].(velocity := r[k].velocity, position := r[k].position)
  {
    PositionPass(VelocityPass(bs, i, j, touch.normal, e), i, j, touch.normal, touch.penetration)
  }

  /** What `Contact::Resolve` does to the bodies. A rectangle against a circle is resolved by a recursive
      call on the swapped pair, after which the response runs a second time with the same touch. */
  function Resolved(len: Vec2 -> real, bs: seq<Body>, i: nat, s: Shape, ri: real, j: nat, t: Shape,
      rj: real): (r: seq<Body>)
    requires TwoBodies(bs, i, j)
    ensures |r| == |bs|
    ensures forall k :: 0 <= k < |bs| ==> r[k] == bs[k].(velocity := r[k].velocity, position := r[k].position)
  {
    if s.RectangleShape? && t.CircleShape? then
      var touch := TouchOf(len, t, bs[j].position, s, bs[i].position);
      var e := MixedRestitution(bs, j, i, rj, ri);
      Respond(Respond(bs, j, i, touch, e), j, i, touch, e)
    else
      Respond(bs, i, j, TouchOf(len, s, bs[i].position, t, bs[j].position), MixedRestitution(bs, i, j, ri, rj))
  }

  /** A body pointer is an index into the world's array of bodies; both may name the same body. */
  class Contact {
    const bodies: array<Body>
    var index0: nat
    var index1: nat
    var shape0: Shape
    var shape1: Shape
    var restitution0: real
    var restitution1: real
    var normal: Vec2
    var restitution: real
    var penetration: real

    constructor (bodies: array<Body>, i: nat, s: Shape, ri: real, j: nat, t: Shape, rj: real)
      ensures this.bodies == bodies && index0 == i && index1 == j && shape0 == s && shape1 == t
      ensures restitution0 == ri && restitution1 == rj && normal == ZERO && penetration == 0.0
    {
      this.bodies := bodies;
      index0, index1, shape0, shape1, restitution0, restitution1 := i, j, s, t, ri, rj;
      normal, restitution, penetration := ZERO, 1.0, 0.0;
    }

    ghost predicate Valid()
      reads this, bodies
    {
      TwoBodies(bodies[..], index0, index1)
    }

    method Resolve(len: Vec2 -> real)
      requires Valid() && normal == ZERO && penetration == 0.0
      modifies this, bodies
      ensures Valid()
      ensures bodies[..] ==
        Resolved(len, old(bodies[..]), old(index0), old(shape0), old(restitution0), old(index1), old(shape1),
            old(restitution1))
      ensures !(old(shape0).RectangleShape? && old(shape1).CircleShape?) ==>
        && index0 == old(index0) && index1 == old(index1)
        && restitution0 == old(restitution0) && restitution1 == old(restitution1)
        && Touch(normal, penetration) ==
           TouchOf(len, old(shape0), old(bodies[index0]).position, old(shape1), old(bodies[index1]).position)
      decreases if shape0.RectangleShape? && shape1.CircleShape? then 1 else 0
    {
      hide TouchOf, Respond, MixedRestitution;
      ghost var before := bodies[..];
      assert before[index0] == bodies[index0] && before[index1] == bodies[index1];
      if shape0.RectangleShape? && shape1.CircleShape? {
        index0, index1 := index1, index0;
        shape0, shape1 := shape1, shape0;
        restitution0, restitution1 := restitution1, restitution0;
        Resolve(len);
        SameMix(before, bodies[..], index0, index1, restitution0, restitution1);
      } else {
        MeasureTouch(len);
      }
      ghost var middle := bodies[..];
      Response();
      assert bodies[..] == Respond(middle, index0, index1, Touch(normal, penetration),
                                   MixedRestitution(middle, index0, index1, restitution0, restitution1));
    }

    /** The cases of `Resolve` that set the normal and the penetration. */
    method MeasureTouch(len: Vec2 -> real)
      requires Valid() && normal == ZERO && penetration == 0.0
      requires !(shape0.RectangleShape? && shape1.CircleShape?)
      modifies this`normal, this`penetration
      ensures Touch(normal, penetration) ==
              TouchOf(len, shape0, bodies[index0].position, shape1, bodies[index1].position)
    {
      var p, q := bodies[index0].position, bodies[index1].position;
      match (shape0, shape1) {
        case (CircleShape(a), CircleShape(b)) =>
          var delta := p.Add(a.center).Sub(q).Sub(b.center);
          var length := len(delta);
          normal := if length > 0.0 then delta.Scale(1.0 / length) else UP;
          penetration := a.radius + b.radius - length;
        case (CircleShape(a), RectangleShape(b)) =>
          var closestX := Clamp(p.x + a.center.x, b.minBound.x + q.x, b.maxBound.x + q.x);
          var closestY := Clamp(p.y + a.center.y, b.minBound.y + q.y, b.maxBound.y + q.y);
          var delta := p.Add(a.center).Sub(Vec2(closestX, closestY));
          var distance := len(delta);
          penetration := a.radius - distance;
          normal := if distance > 0.0 then delta.Scale(1.0 / distance) else UP;
        case (RectangleShape(a), RectangleShape(b)) =>
          var delta := p.Add(a.Center()).Sub(q).Sub(b.Center());
          var depth := a.HalfSize().Add(b.HalfSize()).Sub(Vec2(Abs(delta.x), Abs(delta.y)));
          if depth.x < depth.y {
            penetration := depth.x;
            normal := Vec2(if delta.x > 0.0 then 1.0 else -1.0, 0.0);
          } else {
            penetration := depth.y;
            normal := Vec2(0.0, if delta.y > 0.0 then 1.0 else -1.0);
          }
        case _ =>
      }
    }

    /** The tail of `Resolve`: mixes the restitutions and runs both passes. */
    method Response()
      requires Valid()
      modifies this`restitution, bodies
      ensures Valid()
      ensures bodies[..] == Respond(old(bodies[..]), index0, index1, Touch(normal, penetration),
                                    MixedRestitution(old(bodies[..]), index0, index1, restitution0, restitution1))
    {
      hide VelocityPass, PositionPass;
      ghost var before := bodies[..];
      var mass0, mass1 := bodies[index0].mass, bodies[index1].mass;
      restitution := (mass0 * restitution0 + mass1 * restitution1) / (mass0 + mass1);
      assert restitution == MixedRestitution(before, index0, index1, restitution0, restitution1);
      ResolveVelocity();
      ghost var middle := bodies[..];
      assert middle == VelocityPass(before, index0, index1, normal, restitution);
      ResolveInterpenetration();
      assert bodies[..] == PositionPass(middle, index0, index1, normal, penetration);
    }

    method CalculateSeparateVelocity() returns (r: real)
      requires Valid()
      ensures r == SeparatingVelocity(bodies[..], index0, index1, normal)
    {
      r := bodies[index0].velocity.Sub(bodies[index1].velocity).Dot(normal);
    }

    method ResolveVelocity()
      requires Valid()
      modifies bodies
      ensures Valid() && bodies[..] == VelocityPass(old(bodies[..]), index0, index1, normal, restitution)
    {
      hide Vec2.Scale, Vec2.Add, Vec2.Sub, Vec2.Dot, Push, ImpulseSize;
      var separatingVelocity := CalculateSeparateVelocity();
      if separatingVelocity > 0.0 {
        return;
      }
      var inverseMass0, inverseMass1 := 1.0 / bodies[index0].mass, 1.0 / bodies[index1].mass;
      var totalInverseMass := inverseMass0 + inverseMass1;
      assert totalInverseMass == InverseMassSum(bodies[..], index0, index1);
      if totalInverseMass <= 0.0 {
        return;
      }
      var impulse := normal.Scale(ImpulseSize(separatingVelocity, restitution, totalInverseMass));
      ghost var before := bodies[..];
      assert impulse == Impulse(before, index0, index1, normal, restitution);
      if bodies[index0].bodyType == DYNAMIC {
        PushBody(index0, impulse.Scale(inverseMass0));
      }
      ghost var r1 := bodies[..];
      if bodies[index1].bodyType == DYNAMIC {
        PushBody(index1, impulse.Scale(inverseMass1).Scale(-1.0));
      }
      ghost var r2 := bodies[..];
      if bodies[index0].bodyType == STATIC {
        PushBody(index1, impulse.Scale(inverseMass0).Scale(-1.0));
      }
      ghost var r3 := bodies[..];
      if bodies[index1].bodyType == STATIC {
        PushBody(index0, impulse.Scale(inverseMass1));
      }
      SameBodies(before, index0, index1, normal, restitution, r1, r2, r3, bodies[..]);
    }

    method PushBody(i: nat, dv: Vec2)
      requires i < bodies.Length
      modifies bodies
      ensures bodies[..] == Push(old(bodies[..]), i, dv)
    {
      bodies[i] := bodies[i].(velocity := bodies[i].velocity.Add(dv));
    }

    method ShiftBody(i: nat, d: Vec2)
      requires i < bodies.Length
      modifies bodies
      ensures bodies[..] == Shift(old(bodies[..]), i, d)
    {
      bodies[i] := bodies[i].(position := bodies[i].position.Add(d));
    }

    method ResolveInterpenetration()
      requires Valid()
      modifies bodies
      ensures Valid() && bodies[..] == PositionPass(old(bodies[..]), index0, index1, normal, penetration)
    {
      if penetration <= 0.0 {
        return;
      }
      var inverseMass0, inverseMass1 := 1.0 / bodies[index0].mass, 1.0 / bodies[index1].mass;
      var totalInverseMass := inverseMass0 + inverseMass1;
      assert totalInverseMass == InverseMassSum(bodies[..], index0, index1);
      if totalInverseMass <= 0.0 {
        return;
      }
      var move := normal.Scale(penetration / totalInverseMass);
      if bodies[index0].bodyType == DYNAMIC {
        ShiftBody(index0, move.Scale(inverseMass0));
      }
      if bodies[index1].bodyType == DYNAMIC {
        ShiftBody(index1, move.Scale(inverseMass1).Scale(-1.0));
      }
    }
  }
}
