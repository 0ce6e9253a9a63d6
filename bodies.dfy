/// The `Body` record shared by the simulation, the loaders and the compute
/// kernel (Assets/NBodySimulation.cs, struct Body).
module Bodies {
  import opened UnityMath

  /// Position (AU), velocity, mass (kg), the comet flag and the collision
  /// counter. `F` is `real` for the major bodies the host integrates and the
  /// raw binary32 bit pattern for the records read from catalog files.
  datatype Body<F> = Body(position: Vec3<F>, velocity: Vec3<F>, mass: F, isComet: F, collided: F)

  /// The outcome of an operation that either completes with a value or
  /// throws (None).
  datatype Option<T> = None | Some(value: T)

  /// Every Body packs into 9 floats (position, velocity, mass, isComet, collided).
  const BodyStride: nat := 4 * 9

  /// The position column of a body array.
  function Positions(bs: seq<Body<real>>): (ps: seq<Vec3<real>>)
    ensures |ps| == |bs|
    ensures forall i :: 0 <= i < |bs| ==> ps[i] == bs[i].position
  {
    seq(|bs|, i requires 0 <= i < |bs| => bs[i].position)
  }

  /// The mass column of a body array.
  function Masses(bs: seq<Body<real>>): (ms: seq<real>)
    ensures |ms| == |bs|
    ensures forall i :: 0 <= i < |bs| ==> ms[i] == bs[i].mass
  {
    seq(|bs|, i requires 0 <= i < |bs| => bs[i].mass)
  }
}
