/// The host side of NBodySimulation (Assets/NBodySimulation.cs): the
/// Barnes–Hut tree built over the major bodies, the velocity-Verlet step and
/// the mass controls, as a class whose fields the operations update.
module NBody {
  import opened UnityMath
  import opened Bodies
  import opened CenterOfMass
  import opened BarnesHut
  import opened Gravity
  import BinaryFileLoader

  /// How SetMass ends: the target's mass was written, the name is not one
  /// of the bodies (an error is logged), or an index was out of range and
  /// the assignment threw before writing anything.
  datatype Outcome = Updated | UnknownTarget | Thrown

  /// What a mass edit leaves behind: how it ended and the body array after it.
  datatype MassEdit = MassEdit(outcome: Outcome, bodies: seq<Body<real>>)

  // ---------------------------------------------------------------------
  // Mass controls, as functions of the body array

  /// The target names of SetMass's switch, at the index each one writes.
  const TargetNames: seq<string> :=
    ["Sun", "Mercury", "Venus", "Earth", "Mars", "Jupiter", "Saturn", "Uranus",
     "Neptune", "Pluto", "Ceres", "BlackHole"]

  /// The body index a target name selects, or None for a name the switch
  /// does not list.
  function TargetIndex(name: string): (r: Option<nat>)
    ensures r.Some? ==> r.value < |TargetNames|
  {
    if name == "Sun" then Some(0)
    else if name == "Mercury" then Some(1)
    else if name == "Venus" then Some(2)
    else if name == "Earth" then Some(3)
    else if name == "Mars" then Some(4)
    else if name == "Jupiter" then Some(5)
    else if name == "Saturn" then Some(6)
    else if name == "Uranus" then Some(7)
    else if name == "Neptune" then Some(8)
    else if name == "Pluto" then Some(9)
    else if name == "Ceres" then Some(10)
    else if name == "BlackHole" then Some(11)
    else None
  }

  /// TargetIndex reads the name table both ways: every listed name selects
  /// its own position, and a selected index names the target it came from.
  lemma TargetIndexTable(name: string)
    ensures TargetIndex(name).Some? <==> name in TargetNames
    ensures TargetIndex(name).Some? ==> TargetNames[TargetIndex(name).value] == name
    ensures forall k :: 0 <= k < |TargetNames| ==> TargetIndex(TargetNames[k]) == Some(k)
  {
  }

  /// The multiplier a target applies: BlackHole clamps it to [0, 10] first.
  function Multiplier(i: nat, massMultiplier: real): real {
    if i == 11 then Clamp(massMultiplier, 0.0, 10.0) else massMultiplier
  }

  /// The mass SetMass writes for target i, as written: Mercury multiplies
  /// its current mass by reference mass times multiplier (`*=`); every other
  /// target gets reference mass times multiplier.
  function TargetMass(i: nat, current: real, reference: real, massMultiplier: real): real {
    if i == 1 then current * (reference * Multiplier(i, massMultiplier))
    else reference * Multiplier(i, massMultiplier)
  }

  /// The mass a target evidently should get: reference mass times
  /// multiplier, for Mercury too.
  function IntendedTargetMass(i: nat, reference: real, massMultiplier: real): real {
    reference * Multiplier(i, massMultiplier)
  }

  /// IntendedTargetMass from the multiplier worked out beforehand.
  lemma IntendedTargetMassIs(i: nat, reference: real, massMultiplier: real, m: real, mass: real)
    requires m == Multiplier(i, massMultiplier) && mass == reference * m
    ensures IntendedTargetMass(i, reference, massMultiplier) == mass
  {
  }

  /// SetMass as written. A known target's index must exist both in the body
  /// array and in the 11-entry reference table, or the assignment throws
  /// before it writes.
  function SetMassOn(bs: seq<Body<real>>, massMultiplier: real, name: string): (r: MassEdit)
  {
    match TargetIndex(name)
    case None => MassEdit(UnknownTarget, bs)
    case Some(i) =>
      var table := BinaryFileLoader.SolarSystemBodies();
      if i >= |bs| || i >= |table| then MassEdit(Thrown, bs)
      else MassEdit(Updated, bs[i := bs[i].(mass := TargetMass(i, bs[i].mass, table[i].mass, massMultiplier))])
  }

  /// SetMass as evidently intended: Mercury too gets reference mass times
  /// multiplier, like every other target.
  function IntendedSetMassOn(bs: seq<Body<real>>, massMultiplier: real, name: string): (r: MassEdit)
  {
    match TargetIndex(name)
    case None => MassEdit(UnknownTarget, bs)
    case Some(i) =>
      var table := BinaryFileLoader.SolarSystemBodies();
      if i >= |bs| || i >= |table| then MassEdit(Thrown, bs)
      else MassEdit(Updated, bs[i := bs[i].(mass := IntendedTargetMass(i, table[i].mass, massMultiplier))])
  }

  /// The mass loop of ResetMass: entry k takes reference mass k. With more
  /// than 11 bodies the loop throws at index 11, after the first 11 writes.
  function ResetOn(bs: seq<Body<real>>): (r: MassEdit)
  {
    var table := BinaryFileLoader.SolarSystemBodies();
    MassEdit(if |bs| <= |table| then Updated else Thrown,
             seq(|bs|, k requires 0 <= k < |bs| => if k < |table| then bs[k].(mass := table[k].mass) else bs[k]))
  }

  /// Once the first `done` entries (all of them, or the whole table) carry
  /// their reference mass and the rest are untouched, the loop's work is
  /// ResetOn's.
  lemma ResetPrefixDone(bs: seq<Body<real>>, cur: seq<Body<real>>, done: nat)
    requires |cur| == |bs| && done <= |bs| && done <= |BinaryFileLoader.SolarSystemBodies()|
    requires done == |bs| || done == |BinaryFileLoader.SolarSystemBodies()|
    requires forall k :: 0 <= k < |cur| ==>
      cur[k] == if k < done then bs[k].(mass := BinaryFileLoader.SolarSystemBodies()[k].mass) else bs[k]
    ensures cur == ResetOn(bs).bodies
  {
  }

  // ---------------------------------------------------------------------
  // Properties of the mass controls

  /// SetMass writes at most one body, and only its mass: it succeeds exactly
  /// for a listed name whose index lies in both the body array and the
  /// table; otherwise the array is left as it was. The written mass is the
  /// reference mass times the multiplier, except Mercury's, which compounds
  /// with the mass it had.
  lemma SetMassTouchesOnlyTarget(bs: seq<Body<real>>, massMultiplier: real, name: string)
    ensures var r := SetMassOn(bs, massMultiplier, name);
      && |r.bodies| == |bs|
      && (r.outcome == UnknownTarget <==> name !in TargetNames)
      && (r.outcome == Updated <==> name in TargetNames && TargetIndex(name).value < |bs| && TargetIndex(name).value < 11)
      && (r.outcome != Updated ==> r.bodies == bs)
      && (forall k :: 0 <= k < |bs| && TargetIndex(name) != Some(k) ==> r.bodies[k] == bs[k])
      && (forall k :: 0 <= k < |bs| ==> r.bodies[k].(mass := bs[k].mass) == bs[k])
    ensures var r := SetMassOn(bs, massMultiplier, name);
      var table := BinaryFileLoader.SolarSystemBodies();
      r.outcome == Updated ==>
        var i := TargetIndex(name).value;
        r.bodies[i].mass == if i == 1 then bs[1].mass * (table[1].mass * massMultiplier)
                            else table[i].mass * massMultiplier
  {
    TargetIndexTable(name);
  }

  /// The BlackHole entry indexes the 11-entry table at 11: SetMass on it
  /// always throws and changes nothing, whatever the multiplier.
  lemma BlackHoleAlwaysThrows(bs: seq<Body<real>>, massMultiplier: real)
    ensures SetMassOn(bs, massMultiplier, "BlackHole") == MassEdit(Thrown, bs)
    ensures IntendedSetMassOn(bs, massMultiplier, "BlackHole") == MassEdit(Thrown, bs)
  {
  }

  /// Intended SetMass sets the target to its reference mass times the
  /// multiplier, wherever it started, so doing it twice is doing it once;
  /// and it agrees with SetMass as written on every target but Mercury.
  lemma IntendedSetMassIdempotent(bs: seq<Body<real>>, massMultiplier: real, name: string)
    ensures var once := IntendedSetMassOn(bs, massMultiplier, name);
      IntendedSetMassOn(once.bodies, massMultiplier, name) == once
    ensures name != "Mercury" ==> IntendedSetMassOn(bs, massMultiplier, name) == SetMassOn(bs, massMultiplier, name)
    ensures var r := IntendedSetMassOn(bs, massMultiplier, name);
      r.outcome == Updated ==>
        r.bodies[TargetIndex(name).value].mass
          == BinaryFileLoader.SolarSystemBodies()[TargetIndex(name).value].mass * massMultiplier
  {
    var once := IntendedSetMassOn(bs, massMultiplier, name);
    match TargetIndex(name)
    case None =>
    case Some(i) =>
      if i < |bs| && i < 11 {
        assert once.bodies[i := once.bodies[i].(mass := once.bodies[i].mass)] == once.bodies;
      }
  }

  /// Mercury as written: on the initial table with multiplier 1 the mass
  /// becomes its reference mass times itself instead of staying put, and
  /// over the reals a second call moves it again; intended SetMass leaves
  /// it at the reference mass. In binary32 the product overflows, so the
  /// program's first call already gives +Infinity, which a second call
  /// keeps.
  lemma MercuryCompounds()
    ensures var table := BinaryFileLoader.SolarSystemBodies();
      var once := SetMassOn(table, 1.0, "Mercury");
      && once.bodies[1].mass == 3.3011e23 * 3.3011e23
      && once.bodies[1].mass != table[1].mass
      && SetMassOn(once.bodies, 1.0, "Mercury") != once
      && IntendedSetMassOn(table, 1.0, "Mercury") == MassEdit(Updated, table)
  {
    var table := BinaryFileLoader.SolarSystemBodies();
    var once := SetMassOn(table, 1.0, "Mercury");
    var twice := SetMassOn(once.bodies, 1.0, "Mercury");
    assert twice.bodies[1].mass == once.bodies[1].mass * 3.3011e23;
    assert twice.bodies[1] != once.bodies[1];
    assert table[1 := table[1].(mass := table[1].mass)] == table;
  }

  /// ResetMass leaves the length alone, gives each of the first eleven
  /// bodies its reference mass and changes nothing else; it fails exactly
  /// when there are more bodies than the table has entries.
  lemma ResetRestoresTable(bs: seq<Body<real>>)
    ensures var r := ResetOn(bs);
      var table := BinaryFileLoader.SolarSystemBodies();
      && |r.bodies| == |bs|
      && (r.outcome == Updated <==> |bs| <= 11)
      && (forall k :: 0 <= k < |bs| ==> r.bodies[k].(mass := bs[k].mass) == bs[k])
      && (forall k :: 0 <= k < |bs| && k < 11 ==> r.bodies[k].mass == table[k].mass)
      && (forall k :: 11 <= k < |bs| ==> r.bodies[k] == bs[k])
    ensures ResetOn(BinaryFileLoader.SolarSystemBodies()) == MassEdit(Updated, BinaryFileLoader.SolarSystemBodies())
  {
    var table := BinaryFileLoader.SolarSystemBodies();
    assert ResetOn(table).bodies == table;
  }

  /// ResetMass is idempotent, and it undoes any SetMass, as written or as
  /// intended: what is reset afterwards is what a reset of the original
  /// array gives.
  lemma ResetUndoesSetMass(bs: seq<Body<real>>, massMultiplier: real, name: string)
    ensures ResetOn(ResetOn(bs).bodies).bodies == ResetOn(bs).bodies
    ensures ResetOn(SetMassOn(bs, massMultiplier, name).bodies) == ResetOn(bs)
    ensures ResetOn(IntendedSetMassOn(bs, massMultiplier, name).bodies) == ResetOn(bs)
  {
    var reset := ResetOn(bs).bodies;
    assert ResetOn(reset).bodies == reset;
    var edited := SetMassOn(bs, massMultiplier, name).bodies;
    assert ResetOn(edited).bodies == reset;
    var intended := IntendedSetMassOn(bs, massMultiplier, name).bodies;
    assert ResetOn(intended).bodies == reset;
  }

  class NBodySimulation {
    var majorBodies: array?<Body<real>>
    var nodes: seq<Node>
    var G: real
    var softening: real

    /// The inspector defaults: G = 6.67430e-11, softening = 0.1, no tree.
    constructor (majorBodies: array?<Body<real>>)
      ensures this.majorBodies == majorBodies && nodes == []
      ensures G == 6.67430e-11 && softening == 0.1
    {
      this.majorBodies := majorBodies;
      nodes := [];
      G := 6.67430e-11;
      softening := 0.1;
    }

    /// The constants ComputeAcceleration reads, with MathF.Sqrt supplied by
    /// the caller.
    function Physics(sqrt: real -> real): Params
      reads this
    {
      Params(G, softening, sqrt)
    }

    // -------------------------------------------------------------------
    // Velocity-Verlet step

    /// StepSimulation(dt): snapshots the positions, computes every a(t),
    /// every new position, then every a(t + dt) from the complete array of
    /// new positions, and only in the last pass writes velocity and position
    /// back into the bodies.
    method StepSimulation(dt: real, sqrt: real -> real)
      requires majorBodies != null && ValidParams(Physics(sqrt))
      modifies majorBodies
      ensures majorBodies[..] == Step(old(majorBodies[..]), dt, Physics(sqrt))
    {
      var currentPositions := CurrentPositions();
      var aT := Accelerations(currentPositions, sqrt);
      var newPositions := AdvancePositions(aT, dt, sqrt);
      var aTdt := Accelerations(newPositions, sqrt);
      CommitStep(aT, aTdt, newPositions, dt, sqrt);
    }

    /// The first loop of StepSimulation: a copy of every position.
    method CurrentPositions() returns (currentPositions: array<Vec3<real>>)
      requires majorBodies != null
      ensures fresh(currentPositions) && currentPositions[..] == Positions(majorBodies[..])
    {
      currentPositions := new Vec3<real>[majorBodies.Length];
      for i := 0 to majorBodies.Length
        invariant forall k :: 0 <= k < i ==> currentPositions[k] == majorBodies[k].position
        modifies currentPositions
      {
        currentPositions[i] := majorBodies[i].position;
      }
      assert currentPositions[..] == Positions(majorBodies[..]);
    }

    /// The second and fourth loops of StepSimulation: the acceleration of
    /// every body for the given positions, with the current masses.
    method Accelerations(positions: array<Vec3<real>>, sqrt: real -> real) returns (a: array<Vec3<real>>)
      requires majorBodies != null && positions.Length == majorBodies.Length && ValidParams(Physics(sqrt))
      ensures fresh(a) && a[..] == Accels(positions[..], Masses(majorBodies[..]), Physics(sqrt))
    {
      a := new Vec3<real>[positions.Length];
      for i := 0 to positions.Length
        invariant forall k :: 0 <= k < i ==> a[k] == Accel(positions[..], Masses(majorBodies[..]), k, Physics(sqrt))
        modifies a
      {
        a[i] := ComputeAcceleration(positions, i, sqrt);
      }
      assert a[..] == Accels(positions[..], Masses(majorBodies[..]), Physics(sqrt));
    }

    /// The third loop of StepSimulation: every new position, from the
    /// velocity and a(t), the displacement converted from metres to AU.
    method AdvancePositions(aT: array<Vec3<real>>, dt: real, ghost sqrt: real -> real) returns (newPositions: array<Vec3<real>>)
      requires majorBodies != null && ValidParams(Physics(sqrt))
      requires aT[..] == Accels(Positions(majorBodies[..]), Masses(majorBodies[..]), Physics(sqrt))
      ensures fresh(newPositions) && newPositions[..] == NewPositions(majorBodies[..], dt, Physics(sqrt))
    {
      ghost var np := NewPositions(majorBodies[..], dt, Physics(sqrt));
      newPositions := new Vec3<real>[majorBodies.Length];
      for i := 0 to majorBodies.Length
        invariant forall k :: 0 <= k < i ==> newPositions[k] == np[k]
        modifies newPositions
      {
        var displacementInMeters := Add(Scale(majorBodies[i].velocity, dt), Scale(Scale(Scale(aT[i], 0.5), dt), dt));
        newPositions[i] := Add(majorBodies[i].position, Div(displacementInMeters, AuToMeters));
      }
      assert newPositions[..] == np;
    }

    /// The last loop of StepSimulation: each body's velocity is kicked by
    /// the mean of a(t) and a(t + dt) and its position replaced.
    method CommitStep(aT: array<Vec3<real>>, aTdt: array<Vec3<real>>, newPositions: array<Vec3<real>>, dt: real, ghost sqrt: real -> real)
      requires majorBodies != null && ValidParams(Physics(sqrt))
      requires aT[..] == Accels(Positions(majorBodies[..]), Masses(majorBodies[..]), Physics(sqrt))
      requires newPositions[..] == NewPositions(majorBodies[..], dt, Physics(sqrt))
      requires aTdt[..] == Accels(newPositions[..], Masses(majorBodies[..]), Physics(sqrt))
      modifies majorBodies
      ensures majorBodies[..] == Step(old(majorBodies[..]), dt, Physics(sqrt))
    {
      ghost var bs := majorBodies[..];
      ghost var stepped := Step(bs, dt, Physics(sqrt));
      for i := 0 to majorBodies.Length
        invariant forall k :: 0 <= k < i ==> majorBodies[k] == stepped[k]
        invariant forall k :: i <= k < majorBodies.Length ==> majorBodies[k] == bs[k]
      {
        StepBodyFrom(bs, i, dt, Physics(sqrt), aT[i], aTdt[i], newPositions[i]);
        majorBodies[i] := majorBodies[i].(velocity := Add(majorBodies[i].velocity, Scale(Scale(Add(aT[i], aTdt[i]), 0.5), dt)));
        majorBodies[i] := majorBodies[i].(position := newPositions[i]);
      }
      assert majorBodies[..] == stepped;
    }

    /// ComputeAcceleration(positions, i): the pull of every body j != i,
    /// with body j's current mass, summed in index order.
    method ComputeAcceleration(positions: array<Vec3<real>>, i: int, sqrt: real -> real) returns (acceleration: Vec3<real>)
      requires majorBodies != null && positions.Length == majorBodies.Length && 0 <= i < positions.Length
      requires ValidParams(Physics(sqrt))
      ensures acceleration == Accel(positions[..], Masses(majorBodies[..]), i, Physics(sqrt))
    {
      ghost var p := Physics(sqrt);
      ghost var ps, ms := positions[..], Masses(majorBodies[..]);
      var posIm := Scale(positions[i], AuToMeters);
      acceleration := Zero;
      for j := 0 to majorBodies.Length
        invariant acceleration == AccelUpTo(ps, ms, i, p, j)
      {
        if i == j {
          AccelUpToSkip(ps, ms, i, p);
          continue;
        }
        var pull := PullOf(posIm, positions[i], positions[j], majorBodies[j].mass, sqrt);
        AccelUpToNext(ps, ms, i, p, j);
        acceleration := Add(acceleration, pull);
      }
    }

    /// The loop body of ComputeAcceleration for one other body: the
    /// separation in metres scaled by G * mass * invDistanceCube, the
    /// inverse distance softened by softeningMeters.
    method PullOf(posIm: Vec3<real>, posI: Vec3<real>, posJ: Vec3<real>, mass: real, sqrt: real -> real)
      returns (pull: Vec3<real>)
      requires posIm == Scale(posI, AuToMeters) && ValidParams(Physics(sqrt))
      ensures pull == Pull(posI, posJ, mass, Physics(sqrt))
    {
      var posJm := Scale(posJ, AuToMeters);
      var direction := Sub(posJm, posIm);
      var invDistanceCube := InverseDistanceCube(direction, sqrt);
      pull := Scale(direction, Strength(G, mass, invDistanceCube));
      PullIs(posI, posJ, mass, Physics(sqrt), direction, invDistanceCube);
    }

    /// The softened inverse distance cubed of ComputeAcceleration's loop
    /// body, for the separation `direction` in metres.
    method InverseDistanceCube(direction: Vec3<real>, sqrt: real -> real) returns (invDistanceCube: real)
      requires ValidParams(Physics(sqrt))
      ensures invDistanceCube == InvDistCubed(direction, Physics(sqrt))
    {
      var softeningMeters := softening * AuToMeters;
      LengthSquaredNonneg(direction);
      var distanceSqr := LengthSquared(direction) + softeningMeters * softeningMeters;
      var invDistance := 1.0 / sqrt(distanceSqr);
      invDistanceCube := invDistance * invDistance * invDistance;
      InvDistCubedIs(direction, Physics(sqrt), softening, softeningMeters, distanceSqr, invDistance, invDistanceCube);
    }

    // -------------------------------------------------------------------
    // Mass controls

    /// SetMass(massMultiplier, targetName) on the body array, with Mercury
    /// set like every other target (IntendedSetMassOn). A known target with
    /// no body array throws.
    method SetMass(massMultiplier: real, targetName: string) returns (outcome: Outcome)
      modifies majorBodies
      ensures majorBodies != null ==>
        MassEdit(outcome, majorBodies[..]) == IntendedSetMassOn(old(majorBodies[..]), massMultiplier, targetName)
      ensures majorBodies == null ==> outcome == if TargetIndex(targetName).Some? then Thrown else UnknownTarget
    {
      var normalMassBodies := BinaryFileLoader.GetSolarSystemBodies();
      var target := TargetIndex(targetName);
      if target.None? {
        return UnknownTarget;
      }
      var i := target.value;
      if majorBodies == null || i >= majorBodies.Length || i >= normalMassBodies.Length {
        return Thrown;
      }
      ghost var bs := majorBodies[..];
      ghost var mass := IntendedTargetMass(i, normalMassBodies[i].mass, massMultiplier);
      var m := massMultiplier;
      if i == 11 {
        m := Clamp(massMultiplier, 0.0, 10.0);
      }
      IntendedTargetMassIs(i, normalMassBodies[i].mass, massMultiplier, m, normalMassBodies[i].mass * m);
      majorBodies[i] := majorBodies[i].(mass := normalMassBodies[i].mass * m);
      assert majorBodies[i].mass == mass;
      assert forall k :: 0 <= k < majorBodies.Length && k != i ==> majorBodies[k] == bs[k];
      assert majorBodies[..] == bs[i := bs[i].(mass := mass)];
      return Updated;
    }

    /// ResetMass's mass loop: every body takes its reference mass; ok is
    /// false when the loop throws (no body array, or more bodies than the
    /// 11-entry table), in which case the first 11 writes have happened.
    method ResetMass() returns (ok: bool)
      modifies majorBodies
      ensures majorBodies != null ==> MassEdit(if ok then Updated else Thrown, majorBodies[..]) == ResetOn(old(majorBodies[..]))
      ensures majorBodies == null ==> !ok
    {
      if majorBodies == null {
        return false;
      }
      ghost var bs := majorBodies[..];
      var normalMassBodies := BinaryFileLoader.GetSolarSystemBodies();
      var i := 0;
      while i < majorBodies.Length
        invariant 0 <= i <= majorBodies.Length && i <= normalMassBodies.Length
        invariant normalMassBodies[..] == BinaryFileLoader.SolarSystemBodies()
        invariant forall k :: 0 <= k < majorBodies.Length ==>
          majorBodies[k] == if k < i then bs[k].(mass := normalMassBodies[k].mass) else bs[k]
      {
        if i >= normalMassBodies.Length {
          ResetPrefixDone(bs, majorBodies[..], i);
          return false;
        }
        majorBodies[i] := majorBodies[i].(mass := normalMassBodies[i].mass);
        i := i + 1;
      }
      ResetPrefixDone(bs, majorBodies[..], i);
      return true;
    }

    // -------------------------------------------------------------------
    // Barnes–Hut tree

    /// RebuildBarnesHutTree: nothing happens without bodies; otherwise the
    /// node array becomes the tree over indices 0 .. n-1 in the box spanned
    /// by all positions.
    method RebuildBarnesHutTree()
      modifies this`nodes
      ensures majorBodies == null || majorBodies.Length == 0 ==> nodes == old(nodes)
      ensures majorBodies != null && majorBodies.Length > 0 ==> nodes == Tree(majorBodies[..])
    {
      if majorBodies == null || majorBodies.Length == 0 {
        return;
      }
      ghost var ps := Positions(majorBodies[..]);
      var minBounds := majorBodies[0].position;
      var maxBounds := majorBodies[0].position;
      var i := 1;
      while i < majorBodies.Length
        invariant 1 <= i <= majorBodies.Length
        invariant minBounds == BoxMin(ps[..i]) && maxBounds == BoxMax(ps[..i])
      {
        assert Init(ps[..i + 1]) == ps[..i];
        minBounds := Min(minBounds, majorBodies[i].position);
        maxBounds := Max(maxBounds, majorBodies[i].position);
        i := i + 1;
      }
      assert ps[..i] == ps;

      var allIndices: seq<int> := [];
      i := 0;
      while i < majorBodies.Length
        invariant 0 <= i <= majorBodies.Length
        invariant allIndices == Range(i)
      {
        allIndices := allIndices + [i];
        i := i + 1;
      }

      var _, nodeList := BuildTree(allIndices, minBounds, maxBounds, [], 0);
      nodes := nodeList;
    }

    /// BuildTree(indices, min, max, nodeList, depth): appends the laid-out
    /// tree of the index set to the node list and returns the position of
    /// its first node. The list, a reference the recursion shares, is passed
    /// in and handed back grown.
    method BuildTree(indices: seq<int>, min: Vec3<real>, max: Vec3<real>, nodeList: seq<Node>, depth: nat)
      returns (myIndex: int, grown: seq<Node>)
      requires majorBodies != null && ValidIndices(majorBodies.Length, indices)
      ensures myIndex == |nodeList|
      ensures grown == nodeList + Flatten(Build(majorBodies[..], indices, min, max, depth), |nodeList|)
      decreases if depth > MaxDepth then 0 else MaxDepth + 1 - depth, 1
    {
      myIndex := |nodeList|;
      if depth > MaxDepth {
        var totalMass, center := Summarize(indices, min, max);
        grown := nodeList + [Node(center, totalMass, min, max, -1, 0, -1)];
        return;
      }

      var totalMass, com := Summarize(indices, min, max);
      if |indices| == 1 {
        grown := nodeList + [Node(com, totalMass, min, max, -1, 0, indices[0])];
        return;
      }

      // Reserve the parent's slot; its child fields are patched at the end.
      var node := Node(com, totalMass, min, max, 0, 0, -1);
      var list := nodeList + [node];
      var childStart := |list|;
      ghost var reserved := list;
      var childCount;
      list, childCount := BuildChildren(indices, min, max, list, depth);

      BranchLayout(majorBodies[..], indices, min, max, depth, nodeList, reserved, list, childStart, childCount);
      list := list[myIndex := list[myIndex].(childStart := childStart, childCount := childCount)];
      grown := list;
    }

    /// The octant loop of BuildTree: partitions the indices, then appends
    /// the tree of every non-empty octant, in octant order, right after
    /// what the list already holds, and counts them.
    method BuildChildren(indices: seq<int>, min: Vec3<real>, max: Vec3<real>, nodeList: seq<Node>, depth: nat)
      returns (grown: seq<Node>, childCount: int)
      requires majorBodies != null && ValidIndices(majorBodies.Length, indices) && depth <= MaxDepth
      ensures grown == nodeList + FlattenAll(BuildCells(majorBodies[..], Split(majorBodies[..], indices, min, max), depth, 0), |nodeList|)
      ensures childCount == |BuildCells(majorBodies[..], Split(majorBodies[..], indices, min, max), depth, 0)|
      decreases MaxDepth + 1 - depth, 0
    {
      ghost var bs := majorBodies[..];
      var mid := Midpoint(min, max);
      var octantIndices := Partition(indices, mid);

      var list := nodeList;
      ghost var whole := nodeList + FlattenAll(BuildCells(bs, Split(bs, indices, min, max), depth, 0), |nodeList|);
      childCount := 0;
      var oct := 0;
      while oct < 8
        invariant 0 <= oct <= 8
        invariant forall o :: 0 <= o < 8 ==> octantIndices[o] == OctantIndices(bs, indices, mid, o)
        invariant list + FlattenAll(BuildCells(bs, Split(bs, indices, min, max), depth, oct), |list|) == whole
        invariant childCount + |BuildCells(bs, Split(bs, indices, min, max), depth, oct)|
               == |BuildCells(bs, Split(bs, indices, min, max), depth, 0)|
      {
        if |octantIndices[oct]| > 0 {
          var octMin, octMax := ChildBox(min, max, mid, oct);
          var _, grownList := BuildTree(octantIndices[oct], octMin, octMax, list, depth + 1);
          OctantVisit(bs, indices, min, max, depth, oct, octantIndices[oct], octMin, octMax, list, grownList, whole);
          list := grownList;
          childCount := childCount + 1;
        } else {
          OctantSkip(bs, indices, min, max, depth, oct, list, whole);
        }
        oct := oct + 1;
      }
      grown := list;
    }

    /// The child box of octant `oct`, each bound picked by `(oct & bit) == bit`.
    static method ChildBox(min: Vec3<real>, max: Vec3<real>, mid: Vec3<real>, oct: int) returns (octMin: Vec3<real>, octMax: Vec3<real>)
      requires 0 <= oct < 8
      ensures octMin == OctMin(min, max, mid, oct) && octMax == OctMax(min, max, mid, oct)
    {
      OctantMask(oct);
      octMin := Vec3(
        if (oct as bv8) & 1 == 1 then mid.x else min.x,
        if (oct as bv8) & 2 == 2 then mid.y else min.y,
        if (oct as bv8) & 4 == 4 then mid.z else min.z);
      octMax := Vec3(
        if (oct as bv8) & 1 == 1 then max.x else mid.x,
        if (oct as bv8) & 2 == 2 then max.y else mid.y,
        if (oct as bv8) & 4 == 4 then max.z else mid.z);
    }

    /// The mass loop shared by the depth-capped leaf and every other node:
    /// the total mass of the indices and their centre of mass, or the box
    /// midpoint when the total is not positive.
    method Summarize(indices: seq<int>, min: Vec3<real>, max: Vec3<real>) returns (totalMass: real, center: Vec3<real>)
      requires majorBodies != null && ValidIndices(majorBodies.Length, indices)
      ensures totalMass == MassOf(majorBodies[..], indices)
      ensures center == CenterOf(majorBodies[..], indices, min, max)
    {
      totalMass := 0.0;
      var weightedPos := Zero;
      var k := 0;
      while k < |indices|
        invariant 0 <= k <= |indices|
        invariant totalMass == MassOf(majorBodies[..], indices[..k])
        invariant weightedPos == MomentOf(majorBodies[..], indices[..k])
      {
        var idx := indices[k];
        totalMass := totalMass + majorBodies[idx].mass;
        weightedPos := Add(weightedPos, Scale(majorBodies[idx].position, majorBodies[idx].mass));
        assert Init(indices[..k + 1]) == indices[..k];
        k := k + 1;
      }
      assert indices[..k] == indices;
      center := if totalMass > 0.0 then Div(weightedPos, totalMass) else Midpoint(min, max);
    }

    /// The partition loop: each index is appended to the list of its body's
    /// octant, the code built by or-ing 1, 2 and 4.
    method Partition(indices: seq<int>, mid: Vec3<real>) returns (octantIndices: array<seq<int>>)
      requires majorBodies != null && ValidIndices(majorBodies.Length, indices)
      ensures fresh(octantIndices) && octantIndices.Length == 8
      ensures forall o :: 0 <= o < 8 ==> octantIndices[o] == OctantIndices(majorBodies[..], indices, mid, o)
    {
      ghost var bs := majorBodies[..];
      octantIndices := new seq<int>[8](_ => []);
      var k := 0;
      while k < |indices|
        invariant 0 <= k <= |indices|
        invariant forall o :: 0 <= o < 8 ==> octantIndices[o] == OctantIndices(bs, indices[..k], mid, o)
      {
        var idx := indices[k];
        var oct := OctantCode(majorBodies[idx].position, mid);
        OctantIndicesSnoc(bs, indices, mid, k);
        octantIndices[oct] := octantIndices[oct] + [idx];
        k := k + 1;
      }
      assert indices[..k] == indices;
    }

    /// The octant code of Partition's loop body: bit 1, 2 and 4 are set
    /// when the position is at or above the split point along x, y and z.
    method OctantCode(pos: Vec3<real>, mid: Vec3<real>) returns (oct: int)
      ensures oct == OctantOf(pos, mid)
    {
      var code: bv8 := 0;
      if pos.x >= mid.x { code := code | 1; }
      if pos.y >= mid.y { code := code | 2; }
      if pos.z >= mid.z { code := code | 4; }
      oct := code as int;
    }
  }

  /// `(oct & bit) == bit` on the octant code is the bit test HasBit.
  lemma OctantMask(oct: int)
    requires 0 <= oct < 8
    ensures ((oct as bv8) & 1 == 1) == HasBit(oct, 1)
    ensures ((oct as bv8) & 2 == 2) == HasBit(oct, 2)
    ensures ((oct as bv8) & 4 == 4) == HasBit(oct, 4)
  {
  }
}
