/// The parts of UnityEngine's Vector3 and Mathf that the simulation uses,
/// with single-precision floats modelled as reals.
module UnityMath {

  /// A three-component vector; `F` is `real` for the host-side arithmetic.
  datatype Vec3<F> = Vec3(x: F, y: F, z: F)

  const Zero: Vec3<real> := Vec3(0.0, 0.0, 0.0)

  function Add(a: Vec3<real>, b: Vec3<real>): Vec3<real> {
    Vec3(a.x + b.x, a.y + b.y, a.z + b.z)
  }

  function Sub(a: Vec3<real>, b: Vec3<real>): Vec3<real> {
    Vec3(a.x - b.x, a.y - b.y, a.z - b.z)
  }

  function Scale(a: Vec3<real>, k: real): Vec3<real> {
    Vec3(a.x * k, a.y * k, a.z * k)
  }

  /// `v / k` on a Vector3: componentwise division.
  function Div(a: Vec3<real>, k: real): Vec3<real>
    requires k != 0.0
  {
    Vec3(a.x / k, a.y / k, a.z / k)
  }

  function Neg(a: Vec3<real>): Vec3<real> {
    Vec3(-a.x, -a.y, -a.z)
  }

  /// `(min + max) * 0.5f`
  function Midpoint(lo: Vec3<real>, hi: Vec3<real>): Vec3<real> {
    Scale(Add(lo, hi), 0.5)
  }

  function MinR(a: real, b: real): real { if a < b then a else b }
  function MaxR(a: real, b: real): real { if a > b then a else b }

  /// Vector3.Min / Vector3.Max: componentwise.
  function Min(a: Vec3<real>, b: Vec3<real>): Vec3<real> {
    Vec3(MinR(a.x, b.x), MinR(a.y, b.y), MinR(a.z, b.z))
  }

  function Max(a: Vec3<real>, b: Vec3<real>): Vec3<real> {
    Vec3(MaxR(a.x, b.x), MaxR(a.y, b.y), MaxR(a.z, b.z))
  }

  /// Componentwise `lo <= p <= hi`: the point lies in the axis-aligned box.
  predicate InBox(p: Vec3<real>, lo: Vec3<real>, hi: Vec3<real>) {
    lo.x <= p.x <= hi.x && lo.y <= p.y <= hi.y && lo.z <= p.z <= hi.z
  }

  function Abs(r: real): real { if r < 0.0 then -r else r }

  /// Mathf.Clamp(value, min, max): below `min` gives `min`, otherwise above
  /// `max` gives `max`; the `min` test comes first, so `min > max` yields `min`
  /// for small values and `max` for large ones.
  function Clamp(value: real, lo: real, hi: real): (r: real)
    ensures lo <= hi ==> lo <= r <= hi
    ensures lo <= value <= hi ==> r == value
    ensures r == value || r == lo || r == hi
  {
    if value < lo then lo else if value > hi then hi else value
  }
}
