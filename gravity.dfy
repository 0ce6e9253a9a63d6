/// Newtonian gravity between the major bodies and one velocity-Verlet step,
/// as NBodySimulation.ComputeAcceleration and StepSimulation compute them on
/// the host (Assets/NBodySimulation.cs:533-621), stated as functions of the
/// body array before the step.
module Gravity {
  import opened UnityMath
  import opened Bodies

  /// AU_TO_METERS: positions are kept in AU, forces are computed in metres.
  const AuToMeters: real := 149600000000.0

  /// What ComputeAcceleration reads besides the positions and masses: the
  /// gravitational constant, the softening length (in AU) and MathF.Sqrt,
  /// which stays an uninterpreted parameter.
  datatype Params = Params(G: real, softening: real, sqrt: real -> real)

  /// LengthSquared(v) = x*x + y*y + z*z.
  function LengthSquared(v: Vec3<real>): real {
    v.x * v.x + v.y * v.y + v.z * v.z
  }

  /// A squared length is never negative.
  lemma LengthSquaredNonneg(v: Vec3<real>)
    ensures LengthSquared(v) >= 0.0
  {
  }

  /// A vector and its opposite have the same squared length.
  lemma LengthSquaredNeg(v: Vec3<real>)
    ensures LengthSquared(Neg(v)) == LengthSquared(v)
  {
    NegSquare(v.x);
    NegSquare(v.y);
    NegSquare(v.z);
  }

  lemma NegSquare(x: real)
    ensures (-x) * (-x) == x * x
  {
  }

  /// softeningMeters * softeningMeters, the term added to every squared
  /// distance.
  function SofteningSquared(p: Params): real {
    (p.softening * AuToMeters) * (p.softening * AuToMeters)
  }

  /// What the model asks of the square root: it does not vanish on a squared
  /// distance plus the squared softening, so 1 / sqrt is defined. A true
  /// square root meets this exactly when the softening is not zero.
  ghost predicate ValidParams(p: Params) {
    forall r: real :: r >= SofteningSquared(p) ==> p.sqrt(r) != 0.0
  }

  /// invDistanceCube for the separation `dir` (in metres).
  function InvDistCubed(dir: Vec3<real>, p: Params): real
    requires ValidParams(p)
  {
    LengthSquaredNonneg(dir);
    var inv := 1.0 / p.sqrt(LengthSquared(dir) + SofteningSquared(p));
    inv * inv * inv
  }

  /// InvDistCubed from its intermediate values, worked out one at a time as
  /// ComputeAcceleration's loop body does.
  lemma InvDistCubedIs(dir: Vec3<real>, p: Params, softening: real, softeningMeters: real,
                       distanceSqr: real, invDistance: real, invDistanceCube: real)
    requires ValidParams(p) && p.softening == softening
    requires softeningMeters == softening * AuToMeters
    requires distanceSqr == LengthSquared(dir) + softeningMeters * softeningMeters
    requires invDistance == 1.0 / p.sqrt(distanceSqr)
    requires invDistanceCube == invDistance * invDistance * invDistance
    ensures InvDistCubed(dir, p) == invDistanceCube
  {
    assert distanceSqr == LengthSquared(dir) + SofteningSquared(p);
  }

  /// Reversing the separation leaves invDistanceCube unchanged, so two
  /// bodies pull each other with the same strength per unit of mass.
  lemma InvDistCubedNeg(dir: Vec3<real>, p: Params)
    requires ValidParams(p)
    ensures InvDistCubed(Neg(dir), p) == InvDistCubed(dir, p)
  {
    LengthSquaredNeg(dir);
  }

  /// The pull of a body of mass `mj` at `pj` on the body at `pi`:
  /// direction * (G * mj * invDistanceCube), with both positions in metres.
  function Pull(pi: Vec3<real>, pj: Vec3<real>, mj: real, p: Params): Vec3<real>
    requires ValidParams(p)
  {
    var dir := Sub(Scale(pj, AuToMeters), Scale(pi, AuToMeters));
    Scale(dir, Strength(p.G, mj, InvDistCubed(dir, p)))
  }

  /// G * mass * invDistanceCube, the factor the separation is scaled by.
  function Strength(g: real, mj: real, invDistanceCube: real): real {
    g * mj * invDistanceCube
  }

  /// Pull computed from its separation and its inverse distance cube, each
  /// worked out beforehand.
  lemma PullIs(pi: Vec3<real>, pj: Vec3<real>, mj: real, p: Params, direction: Vec3<real>, invDistanceCube: real)
    requires ValidParams(p)
    requires direction == Sub(Scale(pj, AuToMeters), Scale(pi, AuToMeters))
    requires invDistanceCube == InvDistCubed(direction, p)
    ensures Pull(pi, pj, mj, p) == Scale(direction, Strength(p.G, mj, invDistanceCube))
  {
    PullUnfold(pi, pj, mj, p);
  }

  lemma PullUnfold(pi: Vec3<real>, pj: Vec3<real>, mj: real, p: Params)
    requires ValidParams(p)
    ensures Pull(pi, pj, mj, p)
         == Scale(Sub(Scale(pj, AuToMeters), Scale(pi, AuToMeters)),
                  Strength(p.G, mj, InvDistCubed(Sub(Scale(pj, AuToMeters), Scale(pi, AuToMeters)), p)))
  {
  }

  /// The acceleration of body `i` from bodies 0 .. n-1, skipping `i` itself,
  /// summed in index order.
  function AccelUpTo(ps: seq<Vec3<real>>, ms: seq<real>, i: int, p: Params, n: nat): Vec3<real>
    requires ValidParams(p) && n <= |ps| == |ms| && 0 <= i < |ps|
  {
    if n == 0 then Zero
    else if n - 1 == i then AccelUpTo(ps, ms, i, p, n - 1)
    else Add(AccelUpTo(ps, ms, i, p, n - 1), Pull(ps[i], ps[n - 1], ms[n - 1], p))
  }

  /// One more term of the sum past body i itself, which is skipped.
  lemma AccelUpToSkip(ps: seq<Vec3<real>>, ms: seq<real>, i: int, p: Params)
    requires ValidParams(p) && i < |ps| == |ms| && 0 <= i
    ensures AccelUpTo(ps, ms, i, p, i + 1) == AccelUpTo(ps, ms, i, p, i)
  {
  }

  /// One more term of the sum for another body n: its pull is added.
  lemma AccelUpToNext(ps: seq<Vec3<real>>, ms: seq<real>, i: int, p: Params, n: nat)
    requires ValidParams(p) && n < |ps| == |ms| && 0 <= i < |ps| && n != i
    ensures AccelUpTo(ps, ms, i, p, n + 1) == Add(AccelUpTo(ps, ms, i, p, n), Pull(ps[i], ps[n], ms[n], p))
  {
  }

  /// ComputeAcceleration(positions, i): the pull of every other body.
  function Accel(ps: seq<Vec3<real>>, ms: seq<real>, i: int, p: Params): Vec3<real>
    requires ValidParams(p) && |ps| == |ms| && 0 <= i < |ps|
  {
    AccelUpTo(ps, ms, i, p, |ps|)
  }

  /// The acceleration of every body, in index order.
  function Accels(ps: seq<Vec3<real>>, ms: seq<real>, p: Params): (r: seq<Vec3<real>>)
    requires ValidParams(p) && |ps| == |ms|
    ensures |r| == |ps|
    ensures forall i :: 0 <= i < |ps| ==> r[i] == Accel(ps, ms, i, p)
  {
    seq(|ps|, i requires 0 <= i < |ps| => Accel(ps, ms, i, p))
  }

  /// The new position of a body after `dt` seconds:
  /// position + (velocity * dt + 0.5 * a(t) * dt * dt) / AU_TO_METERS.
  function NewPosition(b: Body<real>, a: Vec3<real>, dt: real): Vec3<real> {
    var displacement := Add(Scale(b.velocity, dt), Scale(Scale(Scale(a, 0.5), dt), dt));
    Add(b.position, Div(displacement, AuToMeters))
  }

  /// The new positions of all bodies, each from its acceleration at time t
  /// computed on the positions before the step.
  function NewPositions(bs: seq<Body<real>>, dt: real, p: Params): (r: seq<Vec3<real>>)
    requires ValidParams(p)
    ensures |r| == |bs|
    ensures forall i :: 0 <= i < |bs| ==>
      r[i] == NewPosition(bs[i], Accel(Positions(bs), Masses(bs), i, p), dt)
  {
    var ps, ms := Positions(bs), Masses(bs);
    seq(|bs|, i requires 0 <= i < |bs| => NewPosition(bs[i], Accel(ps, ms, i, p), dt))
  }

  /// velocity + 0.5 * (a(t) + a(t + dt)) * dt
  function NewVelocity(b: Body<real>, a0: Vec3<real>, a1: Vec3<real>, dt: real): Vec3<real> {
    Add(b.velocity, Scale(Scale(Add(a0, a1), 0.5), dt))
  }

  /// Body `i` after the step: a(t) from the old positions, a(t + dt) from the
  /// complete array of new positions, masses from before the step; only
  /// velocity and position are replaced.
  function StepBody(bs: seq<Body<real>>, i: int, dt: real, p: Params): Body<real>
    requires ValidParams(p) && 0 <= i < |bs|
  {
    var a0 := Accel(Positions(bs), Masses(bs), i, p);
    var np := NewPositions(bs, dt, p);
    var a1 := Accel(np, Masses(bs), i, p);
    bs[i].(velocity := NewVelocity(bs[i], a0, a1, dt), position := np[i])
  }

  /// StepBody from the accelerations and the new position worked out for
  /// body i beforehand.
  lemma StepBodyFrom(bs: seq<Body<real>>, i: int, dt: real, p: Params, a0: Vec3<real>, a1: Vec3<real>, np: Vec3<real>)
    requires ValidParams(p) && 0 <= i < |bs|
    requires a0 == Accels(Positions(bs), Masses(bs), p)[i]
    requires a1 == Accels(NewPositions(bs, dt, p), Masses(bs), p)[i]
    requires np == NewPositions(bs, dt, p)[i]
    ensures Step(bs, dt, p)[i] == bs[i].(velocity := NewVelocity(bs[i], a0, a1, dt), position := np)
  {
  }

  /// StepSimulation(dt) on the whole array.
  function Step(bs: seq<Body<real>>, dt: real, p: Params): (r: seq<Body<real>>)
    requires ValidParams(p)
    ensures |r| == |bs|
    ensures forall i :: 0 <= i < |bs| ==> r[i] == StepBody(bs, i, dt, p)
  {
    seq(|bs|, i requires 0 <= i < |bs| => StepBody(bs, i, dt, p))
  }

  // ---------------------------------------------------------------------
  // Properties

  /// The body's own entry takes no part in its acceleration: its mass can be
  /// anything.
  lemma {:induction false} AccelIgnoresOwnMass(ps: seq<Vec3<real>>, ms: seq<real>, i: int, m: real, p: Params, n: nat)
    requires ValidParams(p) && n <= |ps| == |ms| && 0 <= i < |ps|
    ensures AccelUpTo(ps, ms[i := m], i, p, n) == AccelUpTo(ps, ms, i, p, n)
  {
    if n > 0 {
      AccelIgnoresOwnMass(ps, ms, i, m, p, n - 1);
    }
  }

  /// A massless body pulls on nobody.
  lemma MasslessPull(pi: Vec3<real>, pj: Vec3<real>, p: Params)
    requires ValidParams(p)
    ensures Pull(pi, pj, 0.0, p) == Zero
  {
  }

  /// A body among massless bodies feels no acceleration at all.
  lemma {:induction false} MasslessNeighbours(ps: seq<Vec3<real>>, ms: seq<real>, i: int, p: Params, n: nat)
    requires ValidParams(p) && n <= |ps| == |ms| && 0 <= i < |ps|
    requires forall j :: 0 <= j < n && j != i ==> ms[j] == 0.0
    ensures AccelUpTo(ps, ms, i, p, n) == Zero
  {
    if n > 0 {
      MasslessNeighbours(ps, ms, i, p, n - 1);
      if n - 1 != i {
        MasslessPull(ps[i], ps[n - 1], p);
      }
    }
  }

  /// With dt = 0 the step changes nothing: positions, velocities and all
  /// other fields come back as they were.
  lemma StepZeroIsIdentity(bs: seq<Body<real>>, p: Params)
    requires ValidParams(p)
    ensures Step(bs, 0.0, p) == bs
  {
    var r := Step(bs, 0.0, p);
    forall i | 0 <= i < |bs| ensures r[i] == bs[i] {
      StepBodyZero(bs, i, p);
    }
  }

  lemma StepBodyZero(bs: seq<Body<real>>, i: int, p: Params)
    requires ValidParams(p) && 0 <= i < |bs|
    ensures StepBody(bs, i, 0.0, p) == bs[i]
  {
    var np := NewPositions(bs, 0.0, p);
    ZeroDisplacement(bs[i], Accel(Positions(bs), Masses(bs), i, p));
    ZeroKick(bs[i], Accel(Positions(bs), Masses(bs), i, p), Accel(np, Masses(bs), i, p));
  }

  lemma ZeroKick(b: Body<real>, a0: Vec3<real>, a1: Vec3<real>)
    ensures NewVelocity(b, a0, a1, 0.0) == b.velocity
  {
    var h := Scale(Scale(Add(a0, a1), 0.5), 0.0);
    assert h == Zero;
    assert Add(b.velocity, Zero) == b.velocity;
  }

  lemma ZeroDisplacement(b: Body<real>, a: Vec3<real>)
    ensures NewPosition(b, a, 0.0) == b.position
  {
    var v, h := Scale(b.velocity, 0.0), Scale(Scale(Scale(a, 0.5), 0.0), 0.0);
    assert v == Zero && h == Zero;
    assert Div(Add(v, h), AuToMeters) == Zero;
    assert Add(b.position, Zero) == b.position;
  }

  /// The step keeps the array's length and every body's mass, comet flag and
  /// collision count.
  lemma StepKeepsOtherFields(bs: seq<Body<real>>, dt: real, p: Params)
    requires ValidParams(p)
    ensures |Step(bs, dt, p)| == |bs|
    ensures forall i :: 0 <= i < |bs| ==>
      Step(bs, dt, p)[i].mass == bs[i].mass && Step(bs, dt, p)[i].isComet == bs[i].isComet
      && Step(bs, dt, p)[i].collided == bs[i].collided
  {
  }
}
