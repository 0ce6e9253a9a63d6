/// Orbital-element ingestion of CoroutineJsonLoader (Assets/CoroutineJsonLoader.cs):
/// each SmallBody record of orbital elements becomes one Body with a state
/// vector worked out by Newton's method on Kepler's equation. Math.Sin,
/// Math.Cos, Math.Sqrt, Math.Atan2 and float.TryParse are parameters.
module OrbitalElements {
  import opened UnityMath
  import opened Bodies

  /// Gravitational parameter of the Sun in AU^3/day^2.
  const Mu: real := 0.0002959122082855911
  /// Gravitational constant (m^3 / kg / s^2).
  const GravitationalConstant: real := 0.0000000000667430
  /// Math.PI.
  const Pi: real := 3.141592653589793
  /// Newton's method makes at most this many updates ...
  const MaxIter: nat := 100
  /// ... and stops after the first update smaller than this.
  const Tol: real := 0.000001

  /// The fields of a SmallBody record the loader reads: GM as text, the
  /// semi-major axis A (AU), eccentricity EC, and the angles IN, W, OM and
  /// MA in degrees.
  datatype SmallBody = SmallBody(GM: string, A: real, EC: real, IN: real, W: real, OM: real, MA: real)

  /// Math.Sin, Math.Cos, Math.Sqrt and Math.Atan2, left opaque.
  datatype Trig = Trig(sin: real -> real, cos: real -> real, sqrt: real -> real, atan2: (real, real) -> real)

  /// sin² + cos² = 1, the one identity of the trigonometric functions some
  /// properties below rely on.
  ghost predicate Pythagorean(t: Trig) {
    forall x: real :: t.sin(x) * t.sin(x) + t.cos(x) * t.cos(x) == 1.0
  }

  /// Degrees to radians, as `deg * Math.PI / 180.0`.
  function Radians(degrees: real): real {
    degrees * Pi / 180.0
  }

  /// The conversion is linear, maps 180 degrees to π and a full turn to 2π.
  lemma RadiansLinear(a: real, b: real)
    ensures Radians(a + b) == Radians(a) + Radians(b)
    ensures Radians(180.0) == Pi && Radians(360.0) == 2.0 * Pi && Radians(0.0) == 0.0
  {
  }

  // ---------------------------------------------------------------------
  // Kepler's equation M = E − e sin E by Newton's method

  /// Newton's update is defined: 1 − e cos E never vanishes. Division by
  /// zero in double arithmetic (an infinite or NaN update) is not modelled.
  ghost predicate NewtonDefined(e: real, t: Trig) {
    forall x: real :: e * t.cos(x) != 1.0
  }

  /// Under NewtonDefined, f' = 1 − e cos E is non-zero at every E.
  lemma NewtonDenominator(e: real, t: Trig, E: real)
    requires NewtonDefined(e, t)
    ensures 1.0 - e * t.cos(E) != 0.0
  {
  }

  /// delta = f / f' with f = E − e sin E − M and f' = 1 − e cos E.
  function Delta(E: real, M: real, e: real, t: Trig): real
    requires NewtonDefined(e, t)
  {
    NewtonDenominator(e, t, E);
    (E - e * t.sin(E) - M) / (1.0 - e * t.cos(E))
  }

  /// The eccentric anomaly after k Newton updates from E = M, ignoring the
  /// early stop.
  function Iterate(M: real, e: real, t: Trig, k: nat): real
    requires NewtonDefined(e, t)
  {
    if k == 0 then M
    else
      var E := Iterate(M, e, t, k - 1);
      E - Delta(E, M, e, t)
  }

  /// How many updates the loop makes, once `k` updates were not small
  /// enough: it stops after the first small one, or at MaxIter.
  function Updates(M: real, e: real, t: Trig, k: nat): nat
    requires NewtonDefined(e, t) && k <= MaxIter
    decreases MaxIter - k
  {
    if k == MaxIter then MaxIter
    else if Abs(Delta(Iterate(M, e, t, k), M, e, t)) < Tol then k + 1
    else Updates(M, e, t, k + 1)
  }

  /// The eccentric anomaly the solver returns.
  function EccentricAnomaly(M: real, e: real, t: Trig): real
    requires NewtonDefined(e, t)
  {
    Iterate(M, e, t, Updates(M, e, t, 0))
  }

  /// Updates counts the loop's passes: between 1 and 100, every update but
  /// the last was at least the tolerance, and the last one is below it
  /// unless the 100 passes ran out.
  lemma {:induction false} UpdatesStopsAtFirstSmall(M: real, e: real, t: Trig, k: nat)
    requires NewtonDefined(e, t) && k < MaxIter
    requires forall j :: 0 <= j < k ==> Abs(Delta(Iterate(M, e, t, j), M, e, t)) >= Tol
    ensures var n := Updates(M, e, t, k);
      && k < n <= MaxIter
      && (forall j :: 0 <= j < n - 1 ==> Abs(Delta(Iterate(M, e, t, j), M, e, t)) >= Tol)
      && (n < MaxIter ==> Abs(Delta(Iterate(M, e, t, n - 1), M, e, t)) < Tol)
    decreases MaxIter - k
  {
    if Abs(Delta(Iterate(M, e, t, k), M, e, t)) >= Tol && k + 1 < MaxIter {
      UpdatesStopsAtFirstSmall(M, e, t, k + 1);
    }
  }

  /// A circular orbit needs no correction: with e = 0 the first update is
  /// exactly zero, whatever sin and cos return, so the solver stops after
  /// one pass with E = M.
  lemma CircularOrbitExact(M: real, t: Trig)
    ensures NewtonDefined(0.0, t)
    ensures Updates(M, 0.0, t, 0) == 1
    ensures EccentricAnomaly(M, 0.0, t) == M
  {
    assert forall x: real :: 0.0 * t.cos(x) != 1.0;
    assert Delta(M, M, 0.0, t) == 0.0;
  }

  /// The update worked out one value at a time, as the loop body does.
  lemma DeltaIs(E: real, M: real, e: real, t: Trig, f: real, fprime: real, delta: real)
    requires NewtonDefined(e, t)
    requires f == E - e * t.sin(E) - M && fprime == 1.0 - e * t.cos(E) && fprime != 0.0
    requires delta == f / fprime
    ensures Delta(E, M, e, t) == delta
  {
  }

  /// The Kepler loop of ComputeStateVector: E starts at M and takes Newton
  /// updates until one is smaller than the tolerance or 100 have been made.
  method SolveKepler(M: real, e: real, t: Trig) returns (E: real, updates: nat)
    requires NewtonDefined(e, t)
    ensures updates == Updates(M, e, t, 0) && 1 <= updates <= MaxIter
    ensures E == Iterate(M, e, t, updates) && E == EccentricAnomaly(M, e, t)
  {
    E := M;
    var iter := 0;
    while iter < MaxIter
      invariant 0 <= iter <= MaxIter
      invariant E == Iterate(M, e, t, iter)
      invariant Updates(M, e, t, 0) == Updates(M, e, t, iter)
    {
      var f := E - e * t.sin(E) - M;
      NewtonDenominator(e, t, E);
      var fprime := 1.0 - e * t.cos(E);
      var delta := f / fprime;
      DeltaIs(E, M, e, t, f, fprime, delta);
      E := E - delta;
      if Abs(delta) < Tol {
        return E, iter + 1;
      }
      iter := iter + 1;
    }
    updates := iter;
  }

  // ---------------------------------------------------------------------
  // From the orbital plane to Unity's axes

  /// Position (xOrb, yOrb) and velocity (vxOrb, vyOrb) in the orbital plane.
  datatype PlaneState = PlaneState(xOrb: real, yOrb: real, vxOrb: real, vyOrb: real)

  /// The specific angular momentum h = sqrt(mu a (1 − e²)) is non-zero,
  /// so that mu / h is defined.
  predicate MomentumDefined(a: real, e: real, t: Trig) {
    t.sqrt(Mu * a * (1.0 - e * e)) != 0.0
  }

  /// The true anomaly, the radial distance r = a (1 − e cos E) and the
  /// radial and transverse velocities, turned into plane coordinates.
  function InPlane(a: real, e: real, E: real, t: Trig): PlaneState
    requires MomentumDefined(a, e, t)
  {
    var fTrue := 2.0 * t.atan2(t.sqrt(1.0 + e) * t.sin(E / 2.0), t.sqrt(1.0 - e) * t.cos(E / 2.0));
    var r := a * (1.0 - e * t.cos(E));
    var h := t.sqrt(Mu * a * (1.0 - e * e));
    var vr := (Mu / h) * e * t.sin(fTrue);
    var vTheta := (Mu / h) * (1.0 + e * t.cos(fTrue));
    PlaneState(r * t.cos(fTrue), r * t.sin(fTrue),
               vr * t.cos(fTrue) - vTheta * t.sin(fTrue), vr * t.sin(fTrue) + vTheta * t.cos(fTrue))
  }

  /// The six coefficients that rotate plane coordinates (u, v) into
  /// heliocentric ecliptic coordinates.
  datatype Rotation = Rotation(xu: real, xv: real, yu: real, yv: real, zu: real, zv: real)

  /// The coefficients from the cosines and sines of the ascending node Ω,
  /// the argument of perihelion ω and the inclination i.
  function Coefficients(cosNode: real, sinNode: real, cosPeri: real, sinPeri: real, cosi: real, sini: real): Rotation {
    Rotation(cosNode * cosPeri - sinNode * sinPeri * cosi, cosNode * sinPeri + sinNode * cosPeri * cosi,
             sinNode * cosPeri + cosNode * sinPeri * cosi, sinNode * sinPeri - cosNode * cosPeri * cosi,
             sinPeri * sini, cosPeri * sini)
  }

  /// The rotation for inclination i, argument of perihelion ω and
  /// ascending node Ω, all in radians.
  function RotationOf(inclination: real, periapsis: real, node: real, t: Trig): Rotation {
    Coefficients(t.cos(node), t.sin(node), t.cos(periapsis), t.sin(periapsis), t.cos(inclination), t.sin(inclination))
  }

  /// Plane coordinates (u, v) in ecliptic coordinates.
  function Rotate(rot: Rotation, u: real, v: real): Vec3<real> {
    Vec3(u * rot.xu - v * rot.xv, u * rot.yu - v * rot.yv, u * rot.zu + v * rot.zv)
  }

  /// Ecliptic x, y, z become Unity's x, z, y.
  function ToUnityAxes(v: Vec3<real>): (r: Vec3<real>)
    ensures r.x == v.x && r.y == v.z && r.z == v.y
  {
    Vec3(v.x, v.z, v.y)
  }

  /// The axis swap is its own inverse.
  lemma ToUnityAxesInvolution(v: Vec3<real>)
    ensures ToUnityAxes(ToUnityAxes(v)) == v
  {
  }

  function Dot(a: Vec3<real>, b: Vec3<real>): real {
    a.x * b.x + a.y * b.y + a.z * b.z
  }

  /// The unit normal of the orbital plane, (sin Ω sin i, −cos Ω sin i, cos i).
  function OrbitNormal(cosNode: real, sinNode: real, cosi: real, sini: real): Vec3<real> {
    Vec3(sinNode * sini, -cosNode * sini, cosi)
  }

  /// Whatever plane coordinates are rotated, the result is orthogonal to
  /// the orbit normal, as long as cos² Ω + sin² Ω = 1.
  lemma RotateInPlane(cosNode: real, sinNode: real, cosPeri: real, sinPeri: real, cosi: real, sini: real, u: real, v: real)
    requires cosNode * cosNode + sinNode * sinNode == 1.0
    ensures Dot(Rotate(Coefficients(cosNode, sinNode, cosPeri, sinPeri, cosi, sini), u, v),
                OrbitNormal(cosNode, sinNode, cosi, sini)) == 0.0
  {
    NormalColumns(cosNode, sinNode, cosPeri, sinPeri, cosi, sini);
    DotOfRotatedZero(Coefficients(cosNode, sinNode, cosPeri, sinPeri, cosi, sini),
                     OrbitNormal(cosNode, sinNode, cosi, sini), u, v);
  }

  /// Both columns of the rotation (the images of the u and v axes) are
  /// orthogonal to the orbit normal when cos² Ω + sin² Ω = 1.
  lemma NormalColumns(cosNode: real, sinNode: real, cosPeri: real, sinPeri: real, cosi: real, sini: real)
    requires cosNode * cosNode + sinNode * sinNode == 1.0
    ensures Coefficients(cosNode, sinNode, cosPeri, sinPeri, cosi, sini).xu * OrbitNormal(cosNode, sinNode, cosi, sini).x
          + Coefficients(cosNode, sinNode, cosPeri, sinPeri, cosi, sini).yu * OrbitNormal(cosNode, sinNode, cosi, sini).y
          + Coefficients(cosNode, sinNode, cosPeri, sinPeri, cosi, sini).zu * OrbitNormal(cosNode, sinNode, cosi, sini).z == 0.0
    ensures Coefficients(cosNode, sinNode, cosPeri, sinPeri, cosi, sini).xv * OrbitNormal(cosNode, sinNode, cosi, sini).x
          + Coefficients(cosNode, sinNode, cosPeri, sinPeri, cosi, sini).yv * OrbitNormal(cosNode, sinNode, cosi, sini).y
         == Coefficients(cosNode, sinNode, cosPeri, sinPeri, cosi, sini).zv * OrbitNormal(cosNode, sinNode, cosi, sini).z
  {
    FirstColumn(cosNode, sinNode, cosPeri, sinPeri, cosi, sini);
    SecondColumn(cosNode, sinNode, cosPeri, sinPeri, cosi, sini);
  }

  lemma FirstColumn(cN: real, sN: real, cP: real, sP: real, ci: real, si: real)
    requires cN * cN + sN * sN == 1.0
    ensures (cN * cP - sN * sP * ci) * (sN * si) + (sN * cP + cN * sP * ci) * (-cN * si) + (sP * si) * ci == 0.0
  {
    assert (cN * cP - sN * sP * ci) * (sN * si) + (sN * cP + cN * sP * ci) * (-cN * si)
        == -((sP * si * ci) * (cN * cN + sN * sN));
    ScaleByOne(sP * si * ci, cN * cN + sN * sN);
  }

  lemma SecondColumn(cN: real, sN: real, cP: real, sP: real, ci: real, si: real)
    requires cN * cN + sN * sN == 1.0
    ensures (cN * sP + sN * cP * ci) * (sN * si) + (sN * sP - cN * cP * ci) * (-cN * si) == (cP * si) * ci
  {
    assert (cN * sP + sN * cP * ci) * (sN * si) + (sN * sP - cN * cP * ci) * (-cN * si)
        == (cP * si * ci) * (cN * cN + sN * sN);
    ScaleByOne(cP * si * ci, cN * cN + sN * sN);
  }

  lemma ScaleByOne(a: real, n: real)
    requires n == 1.0
    ensures a * n == a
  {
  }

  /// A rotated vector is orthogonal to n when both columns are.
  lemma DotOfRotatedZero(rot: Rotation, n: Vec3<real>, u: real, v: real)
    requires rot.xu * n.x + rot.yu * n.y + rot.zu * n.z == 0.0
    requires rot.xv * n.x + rot.yv * n.y == rot.zv * n.z
    ensures Dot(Rotate(rot, u, v), n) == 0.0
  {
    assert Dot(Rotate(rot, u, v), n)
        == u * (rot.xu * n.x + rot.yu * n.y + rot.zu * n.z) - v * (rot.xv * n.x + rot.yv * n.y - rot.zv * n.z);
  }

  /// Every state vector the loader works out needs these: Newton's update
  /// and mu / h are defined.
  ghost predicate StateDefined(body: SmallBody, t: Trig) {
    NewtonDefined(body.EC, t) && MomentumDefined(body.A, body.EC, t)
  }

  /// ComputeStateVector: angles to radians, E by Newton's method, the
  /// plane state, one rotation for both position and velocity, then the
  /// axis swap.
  function StateVector(body: SmallBody, t: Trig): (Vec3<real>, Vec3<real>)
    requires StateDefined(body, t)
  {
    var E := EccentricAnomaly(Radians(body.MA), body.EC, t);
    var plane := InPlane(body.A, body.EC, E, t);
    var rot := RotationOf(Radians(body.IN), Radians(body.W), Radians(body.OM), t);
    (ToUnityAxes(Rotate(rot, plane.xOrb, plane.yOrb)), ToUnityAxes(Rotate(rot, plane.vxOrb, plane.vyOrb)))
  }

  /// The same in Unity's axes, for the rotation the trigonometric functions
  /// give: swapping y and z in both vectors keeps their dot product.
  lemma RotationInPlane(inclination: real, periapsis: real, node: real, t: Trig, u: real, v: real)
    requires Pythagorean(t)
    ensures Dot(ToUnityAxes(Rotate(RotationOf(inclination, periapsis, node, t), u, v)),
                ToUnityAxes(OrbitNormal(t.cos(node), t.sin(node), t.cos(inclination), t.sin(inclination)))) == 0.0
  {
    assert t.sin(node) * t.sin(node) + t.cos(node) * t.cos(node) == 1.0;
    RotateInPlane(t.cos(node), t.sin(node), t.cos(periapsis), t.sin(periapsis), t.cos(inclination), t.sin(inclination), u, v);
  }

  /// Position and velocity lie in one plane through the Sun: both are
  /// orthogonal to the orbit normal for the inclination and ascending node,
  /// read in Unity's axes. This is what rotating both by the same
  /// coefficients buys.
  lemma StateInOrbitPlane(body: SmallBody, t: Trig)
    requires StateDefined(body, t) && Pythagorean(t)
    ensures var n := ToUnityAxes(OrbitNormal(t.cos(Radians(body.OM)), t.sin(Radians(body.OM)),
                                             t.cos(Radians(body.IN)), t.sin(Radians(body.IN))));
      Dot(StateVector(body, t).0, n) == 0.0 && Dot(StateVector(body, t).1, n) == 0.0
  {
    var E := EccentricAnomaly(Radians(body.MA), body.EC, t);
    var plane := InPlane(body.A, body.EC, E, t);
    RotationInPlane(Radians(body.IN), Radians(body.W), Radians(body.OM), t, plane.xOrb, plane.yOrb);
    RotationInPlane(Radians(body.IN), Radians(body.W), Radians(body.OM), t, plane.vxOrb, plane.vyOrb);
  }

  /// ComputeStateVector as the source orders it: the conversions, the
  /// Kepler loop, the plane state, the rotation and the axis swap.
  method ComputeStateVector(body: SmallBody, t: Trig) returns (position: Vec3<real>, velocity: Vec3<real>)
    requires StateDefined(body, t)
    ensures (position, velocity) == StateVector(body, t)
  {
    var inclination := Radians(body.IN);
    var periapsis := Radians(body.W);
    var node := Radians(body.OM);
    var M := Radians(body.MA);
    var a := body.A;
    var e := body.EC;
    var E, _ := SolveKepler(M, e, t);
    var plane := InPlane(a, e, E, t);
    var rot := RotationOf(inclination, periapsis, node, t);
    position := ToUnityAxes(Rotate(rot, plane.xOrb, plane.yOrb));
    velocity := ToUnityAxes(Rotate(rot, plane.vxOrb, plane.vyOrb));
  }

  // ---------------------------------------------------------------------
  // The mass from GM

  /// GM as ProcessData has it: a successful parse is overwritten with 0,
  /// and a failed parse leaves TryParse's out value, which is 0 too.
  function GmAsWritten(parsed: Option<real>): real {
    match parsed
    case Some(_) => 0.0
    case None => 0.0
  }

  /// GM as evidently intended: the parsed value, or 0 when parsing fails.
  function Gm(parsed: Option<real>): real {
    match parsed
    case Some(value) => value
    case None => 0.0
  }

  /// mass = GM / G.
  function MassOf(gm: real): real {
    gm / GravitationalConstant
  }

  /// As written, every mass is 0, whatever the GM text says; a GM that
  /// parses as 1 shows the difference from the intended mass.
  lemma MassAlwaysZeroAsWritten(parsed: Option<real>)
    ensures MassOf(GmAsWritten(parsed)) == 0.0
    ensures MassOf(GmAsWritten(Some(1.0))) != MassOf(Gm(Some(1.0)))
  {
  }

  /// The intended mass gives back GM when multiplied by G, and 0 for text
  /// that does not parse.
  lemma MassRecoversGm(parsed: Option<real>)
    ensures MassOf(Gm(parsed)) * GravitationalConstant == (if parsed.Some? then parsed.value else 0.0)
    ensures parsed.None? ==> MassOf(Gm(parsed)) == 0.0
  {
  }

  /// The body ProcessData appends: the state vector, the mass from GM, and
  /// isComet and collided left at 0.
  function BodyOf(data: SmallBody, t: Trig, parsed: Option<real>): (b: Body<real>)
    requires StateDefined(data, t)
    ensures b.isComet == 0.0 && b.collided == 0.0
    ensures b.position == StateVector(data, t).0 && b.velocity == StateVector(data, t).1
    ensures b.mass * GravitationalConstant == Gm(parsed)
  {
    var (position, velocity) := StateVector(data, t);
    Body(position, velocity, MassOf(Gm(parsed)), 0.0, 0.0)
  }

  /// The loader's list of bodies, which ProcessData extends.
  class CoroutineJsonLoader {
    var bodies: seq<Body<real>>

    constructor ()
      ensures bodies == []
    {
      bodies := [];
    }

    /// ProcessData(data): parse GM (with the mass as intended), work out
    /// the state vector and append one body.
    method ProcessData(data: SmallBody, t: Trig, tryParse: string -> Option<real>)
      requires StateDefined(data, t)
      modifies this
      ensures bodies == old(bodies) + [BodyOf(data, t, tryParse(data.GM))]
    {
      var parsed := tryParse(data.GM);
      var gmParsed := 0.0;
      if parsed.Some? {
        gmParsed := parsed.value;
      }
      var mass := MassOf(gmParsed);
      var position, velocity := ComputeStateVector(data, t);
      bodies := bodies + [Body(position, velocity, mass, 0.0, 0.0)];
    }

    /// Processing records one after another appends one body per record,
    /// in input order.
    method ProcessAll(records: seq<SmallBody>, t: Trig, tryParse: string -> Option<real>)
      requires forall k :: 0 <= k < |records| ==> StateDefined(records[k], t)
      modifies this
      ensures |bodies| == |old(bodies)| + |records|
      ensures bodies[..|old(bodies)|] == old(bodies)
      ensures forall k :: 0 <= k < |records| ==> bodies[|old(bodies)| + k] == BodyOf(records[k], t, tryParse(records[k].GM))
    {
      var k := 0;
      while k < |records|
        invariant 0 <= k <= |records|
        invariant |bodies| == |old(bodies)| + k
        invariant bodies[..|old(bodies)|] == old(bodies)
        invariant forall j :: 0 <= j < k ==> bodies[|old(bodies)| + j] == BodyOf(records[j], t, tryParse(records[j].GM))
      {
        ProcessData(records[k], t, tryParse);
        k := k + 1;
      }
    }
  }
}
