/// Mass and centre of mass of a set of bodies, as BuildTree computes them for
/// every node (Assets/NBodySimulation.cs:429-438, 451-465).
module CenterOfMass {
  import opened UnityMath
  import opened Bodies

  predicate ValidIndices(n: nat, idx: seq<int>) {
    forall k :: 0 <= k < |idx| ==> 0 <= idx[k] < n
  }

  function Last<T>(s: seq<T>): T requires |s| > 0 { s[|s| - 1] }

  function Init<T>(s: seq<T>): seq<T> requires |s| > 0 { s[..|s| - 1] }

  /// Total mass of the indexed bodies, summed in list order.
  function MassOf(bs: seq<Body<real>>, idx: seq<int>): real
    requires ValidIndices(|bs|, idx)
  {
    if |idx| == 0 then 0.0 else MassOf(bs, Init(idx)) + bs[Last(idx)].mass
  }

  /// Sum of position * mass over the indexed bodies.
  function MomentOf(bs: seq<Body<real>>, idx: seq<int>): Vec3<real>
    requires ValidIndices(|bs|, idx)
  {
    if |idx| == 0 then Zero
    else Add(MomentOf(bs, Init(idx)), Scale(bs[Last(idx)].position, bs[Last(idx)].mass))
  }

  /// The mass-weighted mean position, or the box midpoint when the total
  /// mass is not positive.
  function CenterOf(bs: seq<Body<real>>, idx: seq<int>, lo: Vec3<real>, hi: Vec3<real>): Vec3<real>
    requires ValidIndices(|bs|, idx)
  {
    var m := MassOf(bs, idx);
    if m > 0.0 then Div(MomentOf(bs, idx), m) else Midpoint(lo, hi)
  }

  predicate AllInBox(bs: seq<Body<real>>, idx: seq<int>, lo: Vec3<real>, hi: Vec3<real>)
    requires ValidIndices(|bs|, idx)
  {
    forall k :: 0 <= k < |idx| ==> InBox(bs[idx[k]].position, lo, hi)
  }

  /// A single body's mass is the set's mass, and its centre is the body's
  /// own position when that mass is positive (the midpoint otherwise).
  lemma SingleCenter(bs: seq<Body<real>>, i: int, lo: Vec3<real>, hi: Vec3<real>)
    requires 0 <= i < |bs|
    ensures MassOf(bs, [i]) == bs[i].mass
    ensures bs[i].mass > 0.0 ==> CenterOf(bs, [i], lo, hi) == bs[i].position
    ensures bs[i].mass <= 0.0 ==> CenterOf(bs, [i], lo, hi) == Midpoint(lo, hi)
  {
    var m, idx := bs[i].mass, [i];
    assert MassOf(bs, idx) == m by { assert Init(idx) == []; }
    assert MomentOf(bs, idx) == Add(Zero, Scale(bs[i].position, m)) by { assert Init(idx) == []; }
    if m > 0.0 {
      UnscaleWeight(bs[i].position, m);
    }
  }

  lemma UnscaleWeight(p: Vec3<real>, m: real)
    requires m != 0.0
    ensures Div(Add(Zero, Scale(p, m)), m) == p
  {
    var v := Add(Zero, Scale(p, m));
    assert v.x == p.x * m && v.y == p.y * m && v.z == p.z * m;
    assert v.x / m == p.x && v.y / m == p.y && v.z / m == p.z;
    var d := Div(v, m);
    assert d.x == p.x && d.y == p.y && d.z == p.z;
    assert d == Vec3(d.x, d.y, d.z) && p == Vec3(p.x, p.y, p.z);
  }
}
