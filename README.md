# UnitySolarSystem in Dafny

This project models the host-side logic of a Unity N-body solar-system simulation in Dafny and proves properties of it. The simulation's major bodies (the Sun, the planets, Pluto and Ceres) are integrated on the CPU; comets and asteroids are read from binary catalog files and integrated on the GPU.

The model covers:

- the Barnes–Hut octree that `NBodySimulation.BuildTree` lays out as a flat node list;
- the velocity-Verlet step of `StepSimulation` and `ComputeAcceleration`;
- the mass controls `SetMass` and `ResetMass`;
- the binary body-record reader `BinaryDataReader.LoadData`;
- the catalog assembly of `BinaryFileLoader.Initialize` and its table of major bodies;
- the orbital-element ingestion of `CoroutineJsonLoader` (Kepler's equation by Newton's method, the rotation to ecliptic axes, the axis swap);
- the length-budgeted trail buffer `FixedLengthTrail`;
- three per-frame state machines: `BlackHoleAbsorptionGlow`, `BlackHoleConsumptionCounter` and `CameraManager`.

How the model is built:

- Unity's `Vector3` is a triple of reals, and `float` and `double` arithmetic is real arithmetic. The catalog reader is the exception: it keeps every value as its 32-bit IEEE 754 binary32 pattern, because it has to tell NaN and infinity apart from finite values.
- `MathF.Sqrt`, `Math.Sin`, `Math.Cos`, `Math.Atan2`, `Vector3.Distance`, `Vector3.Lerp` and `float.TryParse` have no definition. They are function-valued parameters.
- The frame time, input axes, mouse button and file contents are also parameters.
- Objects whose fields change are classes, and their methods are proved against specification functions:
  - `NBodySimulation`: body array, node list.
  - `CoroutineJsonLoader`: body list.
  - `FixedLengthTrail`: points, segment lengths, total.
  - `BlackHoleAbsorptionGlow`, `BlackHoleConsumptionCounter` and `CameraManager`: their counters and angles.
- Pure computations are functions, and the properties are lemmas about them.

Modules:

- `UnityMath`: Vector3 and Mathf helpers.
- `Bodies`: the `Body` record and `Option`.
- `BarnesHut`, `CenterOfMass`: the octree as a value.
- `Gravity`: acceleration and the Verlet step as functions.
- `NBody`: the `NBodySimulation` class and the mass edits.
- `BinaryDataReader`.
- `BinaryFileLoader`.
- `OrbitalElements`: `CoroutineJsonLoader`.
- `Trail`: `FixedLengthTrail`.
- `AbsorptionGlow`.
- `ConsumptionCounter`.
- `Camera`: `CameraManager`.

Where the repository's prose description and its code disagree, the model follows the code:

- A tree node is 10 floats and 3 ints, a stride of 52 bytes (`BarnesHut.NodeStride`), not 40.
- An internal node's children are appended in preorder. Each child follows the whole subtree of the previous one, so the children are not contiguous in the node list.
- The `BlackHole` case of `SetMass` indexes element 11 of the 11-entry reference table. It always throws before writing anything.
- `ResetMass` on more than 11 bodies throws at index 11, after the first 11 writes.

## Model

| member | source | states |
|---|---|---|
| UnityMath.Clamp | Assets/CameraManager.cs:73 | Mathf.Clamp: the result lies in [min, max] when min <= max. A value already in range comes back unchanged. The result is always the value, min or max. |
| BarnesHut.Range | Assets/NBodySimulation.cs:400-403 | `allIndices` is 0 .. n-1 in order. |
| BarnesHut.OctantBits | Assets/NBodySimulation.cs:495-498 | The octant code sets bit 1/2/4 exactly when x/y/z is at or above the midpoint, and it is one of 0 .. 7. |
| BarnesHut.OctantMembership | Assets/NBodySimulation.cs:491-500 | An index lands in octant list `oct` exactly when it belongs to the parent list and its body's code is `oct`, so each index lands in exactly one list. |
| BarnesHut.OctantIndices | Assets/NBodySimulation.cs:492-500 | An octant list holds only valid body indices, and no more of them than the parent list. |
| BarnesHut.OctantIndicesSnoc | Assets/NBodySimulation.cs:492-500 | One more parent index is appended to its own octant's list and to no other. |
| BarnesHut.ChildBoxContains | Assets/NBodySimulation.cs:509-516 | A body in octant `oct` of a box lies in that octant's child box, the half the octant's bits select on each axis. |
| BarnesHut.SplitInBoxes | Assets/NBodySimulation.cs:484-516 | If every body of a set lies in the parent box, every body of every octant lies in its child box. |
| BarnesHut.OctantMassPartition | Assets/NBodySimulation.cs:484-500 | The eight octant lists carry the parent's total mass, with no loss and no double counting. |
| BarnesHut.SomeOctantNonEmpty | Assets/NBodySimulation.cs:505-520 | A non-empty set has at least one non-empty octant. |
| BarnesHut.SplitFacts | Assets/NBodySimulation.cs:484-520 | A non-empty set has 1 to 8 non-empty octants. The octants carry the set's mass, and its bodies lie in their child boxes. |
| BarnesHut.SingleBodyLeaf | Assets/NBodySimulation.cs:467-476 | A single index below the depth cap gives one leaf. The leaf names that body, has childCount 0 and childStart -1, and its centre is the body's position when its mass is positive. |
| BarnesHut.DepthCapLeaf | Assets/NBodySimulation.cs:426-449 | Past depth 200, any index set becomes one aggregate leaf (bodyIndex -1, childCount 0, childStart -1) that carries the set's total mass. |
| BarnesHut.InternalNode | Assets/NBodySimulation.cs:477-529 | Two or more indices below the cap give an aggregate node. It has one subtree per non-empty octant (1 to 8 of them), and childStart is its own position + 1. |
| BarnesHut.SubtreeRoot | Assets/NBodySimulation.cs:451-465 | In every case the first node of a subtree holds the set's total mass, its centre of mass (the box midpoint when the mass is not positive) and the box it was given. |
| BarnesHut.BuildCellsCount | Assets/NBodySimulation.cs:504-520 | childCount is the number of non-empty octants. |
| BarnesHut.BuildFacts | Assets/NBodySimulation.cs:424-531 | Any index set's tree carries the set's whole mass in its leaves. A non-empty set's tree is shaped. When the bodies lie in the box, every single-body leaf's box holds its body. |
| BarnesHut.FlattenFacts | Assets/NBodySimulation.cs:503-527 | Laid out in preorder, a shaped tree gives a well-formed node list: every node has the leaf or aggregate shape at its own position, and the leaves' mass and containment carry over. |
| BarnesHut.BoxContainsAll | Assets/NBodySimulation.cs:392-398 | The fold of Vector3.Min/Max over all positions gives a box that holds every position. |
| BarnesHut.TreeProperties | Assets/NBodySimulation.cs:386-407 | In the rebuilt tree, node 0 is the root. Its box holds every body, and it carries the total mass of indices 0 .. n-1, as do the leaves. Every node is well shaped, and every single-body leaf's box holds its body. |
| CenterOfMass.SingleCenter | Assets/NBodySimulation.cs:451-460 | For a single body, the set's mass is the body's mass. Its centre is the body's position when that mass is positive, and the midpoint otherwise. |
| Gravity.LengthSquaredNonneg | Assets/NBodySimulation.cs:618-621 | LengthSquared is never negative. |
| Gravity.LengthSquaredNeg | Assets/NBodySimulation.cs:618-621 | A vector and its opposite have the same squared length. |
| Gravity.InvDistCubedIs | Assets/NBodySimulation.cs:605-612 | invDistanceCube, worked out step by step as the loop body does (softening converted to metres and squared, 1/sqrt, cubed), equals InvDistCubed. |
| Gravity.InvDistCubedNeg | Assets/NBodySimulation.cs:605-612 | Reversing the separation leaves invDistanceCube unchanged. |
| Gravity.PullIs | Assets/NBodySimulation.cs:604-613 | The pull of body j is the separation in metres scaled by G · m_j · invDistanceCube. |
| Gravity.AccelUpToSkip | Assets/NBodySimulation.cs:599-602 | The term j == i adds nothing to body i's acceleration. |
| Gravity.AccelUpToNext | Assets/NBodySimulation.cs:599-614 | Every other body j adds its pull to the sum. |
| Gravity.Accels | Assets/NBodySimulation.cs:551-556 | One acceleration per body, in index order, each the pull of all the others. |
| Gravity.NewPositions | Assets/NBodySimulation.cs:561-566 | One new position per body, from its velocity and a(t), with the displacement converted from metres to AU. |
| Gravity.Step | Assets/NBodySimulation.cs:540-584 | StepSimulation keeps the array's length. Each body gets the velocity kick from the mean of a(t) and a(t + dt), and the new position. |
| Gravity.AccelIgnoresOwnMass | Assets/NBodySimulation.cs:599-602 | A body's own mass takes no part in its acceleration. |
| Gravity.MasslessNeighbours | Assets/NBodySimulation.cs:599-614 | A body among massless bodies feels no acceleration. |
| Gravity.StepZeroIsIdentity | Assets/NBodySimulation.cs:540-584 | With dt = 0 the step changes nothing. |
| Gravity.StepKeepsOtherFields | Assets/NBodySimulation.cs:578-583 | The step keeps the length, and every body's mass, isComet and collided. Only position and velocity are rewritten. |
| NBody.NBodySimulation.constructor | Assets/NBodySimulation.cs:35-37 | The defaults are G = 6.67430e-11 and softening 0.1, with no tree. |
| NBody.NBodySimulation.StepSimulation | Assets/NBodySimulation.cs:540-584 | After the call, the body array is Step of the array before it. a(t) is computed from the snapshot and a(t + dt) from the complete new-position array. Bodies are written only in the final loop. |
| NBody.NBodySimulation.CurrentPositions | Assets/NBodySimulation.cs:544-548 | A fresh array holding every body's position. |
| NBody.NBodySimulation.Accelerations | Assets/NBodySimulation.cs:551-556 | A fresh array holding Accels of the given positions with the current masses. |
| NBody.NBodySimulation.AdvancePositions | Assets/NBodySimulation.cs:561-566 | A fresh array holding NewPositions of the bodies. |
| NBody.NBodySimulation.CommitStep | Assets/NBodySimulation.cs:578-583 | The last loop turns the body array into Step of the old one. |
| NBody.NBodySimulation.ComputeAcceleration | Assets/NBodySimulation.cs:593-616 | The loop's result is Accel: the pull of every j != i, with current masses, summed in index order. |
| NBody.NBodySimulation.PullOf | Assets/NBodySimulation.cs:604-613 | The loop body's contribution is Pull. |
| NBody.NBodySimulation.InverseDistanceCube | Assets/NBodySimulation.cs:607-611 | The softened inverse distance cubed is InvDistCubed. |
| NBody.TargetIndex | Assets/NBodySimulation.cs:234-272 | A selected index is a position of the twelve-label name table (Sun 0 … Ceres 10, BlackHole 11). |
| NBody.TargetIndexTable | Assets/NBodySimulation.cs:234-272 | Every listed name selects its own position, and a selected index names the target it came from. |
| NBody.SetMassTouchesOnlyTarget | Assets/NBodySimulation.cs:231-278 | SetMass as written keeps the length. It fails with UnknownTarget exactly for unlisted names, and succeeds exactly when the index exists in both the array and the 11-entry table. Otherwise nothing changes. Only the target's mass changes: reference mass × multiplier, but Mercury's current mass is multiplied by that. |
| NBody.BlackHoleAlwaysThrows | Assets/NBodySimulation.cs:269-273 | BlackHole clamps the multiplier and then indexes the table at 11. Both versions of SetMass throw and leave the array unchanged. |
| NBody.IntendedSetMassIdempotent | Assets/NBodySimulation.cs:236-268 | Intended SetMass sets the target to reference mass × multiplier, so applying it twice equals applying it once. It agrees with SetMass as written on every name but Mercury. |
| NBody.MercuryCompounds | Assets/NBodySimulation.cs:239-241 | As written, Mercury on the initial table with multiplier 1 gets its reference mass times itself instead of keeping it, and over the reals a second call changes it again. Intended SetMass leaves the table as it was. |
| NBody.NBodySimulation.SetMass | Assets/NBodySimulation.cs:231-278 | The outcome and the new array are IntendedSetMassOn of the old array. A listed name without a body array throws, and an unlisted name reports UnknownTarget. |
| NBody.ResetRestoresTable | Assets/NBodySimulation.cs:280-286 | ResetMass keeps the length and gives each of the first eleven bodies its reference mass, changing nothing else. It throws exactly when there are more than 11 bodies. |
| NBody.ResetUndoesSetMass | Assets/NBodySimulation.cs:280-286 | ResetMass is idempotent and undoes any SetMass, as written or as intended. |
| NBody.NBodySimulation.ResetMass | Assets/NBodySimulation.cs:280-286 | The loop's outcome and array are ResetOn of the old array. There is no success without a body array. |
| NBody.NBodySimulation.RebuildBarnesHutTree | Assets/NBodySimulation.cs:386-410 | Without bodies the node list is unchanged. Otherwise it becomes Tree of the bodies (see BarnesHut.TreeProperties). |
| NBody.NBodySimulation.BuildTree | Assets/NBodySimulation.cs:424-531 | Returns the position of the set's first node. The list grows by exactly the preorder layout of the set's tree. |
| NBody.NBodySimulation.BuildChildren | Assets/NBodySimulation.cs:502-521 | The octant loop appends each non-empty octant's subtree in octant order, and counts them. |
| NBody.NBodySimulation.ChildBox | Assets/NBodySimulation.cs:509-516 | Each child bound is picked by `(oct & bit) == bit`, giving the octant's half-box. |
| NBody.NBodySimulation.Summarize | Assets/NBodySimulation.cs:453-460 | The mass loop gives MassOf and CenterOf of the index set. |
| NBody.NBodySimulation.Partition | Assets/NBodySimulation.cs:485-500 | Eight lists, each the OctantIndices of its octant. |
| NBody.NBodySimulation.OctantCode | Assets/NBodySimulation.cs:495-498 | The code or-ed from 1, 2 and 4 is OctantOf. |
| BinaryDataReader.U32OfLE | Assets/BinaryDataReader.cs:29 | Reading back the four little-endian bytes of a pattern gives the pattern. |
| BinaryDataReader.LEOfU32 | Assets/BinaryDataReader.cs:29 | Writing out the pattern read from four bytes gives the same bytes. |
| BinaryDataReader.Int32 | Assets/BinaryDataReader.cs:21 | ReadInt32 is the two's complement reading, in [-2^31, 2^31): patterns below 2^31 read as themselves, the rest as the pattern minus 2^32. |
| BinaryDataReader.SpecialValues | Assets/BinaryDataReader.cs:53-57 | NaN is an all-ones exponent with a non-zero fraction, and infinity is an all-ones exponent with a zero fraction (section 3.4 of IEEE 754-2019). |
| BinaryDataReader.ValidIffFinite | Assets/BinaryDataReader.cs:53-57 | IsValidVector holds exactly when no component has the all-ones exponent. |
| BinaryDataReader.Filter | Assets/BinaryDataReader.cs:41-44 | The filter never yields more records than it is given. |
| BinaryDataReader.FilterValid | Assets/BinaryDataReader.cs:41-44 | Every kept record comes from the input and has a valid position and velocity. Mass is never checked. |
| BinaryDataReader.Decode | Assets/BinaryDataReader.cs:15-48 | Input too short for the count or for `count` records gives None, never a partial array. Otherwise the result is the valid records among the first `count`, at most `count` of them. A count <= 0 gives an empty array. |
| BinaryDataReader.LoadData | Assets/BinaryDataReader.cs:15-48 | The read loop returns Decode of the bytes. |
| BinaryDataReader.RoundTrip | Assets/BinaryDataReader.cs:21-44 | Encoding bodies in the file layout and decoding gives back the ones with finite position and velocity, in order, with isComet and collided 0. |
| BinaryDataReader.KeptValid | Assets/BinaryDataReader.cs:21-44 | Valid bodies with zero flags come back unchanged. |
| BinaryDataReader.TrailingBytesIgnored | Assets/BinaryDataReader.cs:21-45 | Bytes after the last record do not change the result. |
| BinaryFileLoader.SolarSystemTable | Assets/BinaryFileLoader.cs:61-86 | Eleven bodies: the Sun first, at rest at the origin, and Ceres last. None is a comet or has collided, every mass is positive, and there is no black-hole entry. |
| BinaryFileLoader.GetSolarSystemBodies | Assets/BinaryFileLoader.cs:61-86 | A fresh array holding the table. |
| BinaryFileLoader.Catalog | Assets/BinaryFileLoader.cs:35 | There is no catalog exactly when there is no numbered asteroid: the array of length −1 cannot be allocated. |
| BinaryFileLoader.CatalogLayout | Assets/BinaryFileLoader.cs:25-50 | With at least one numbered asteroid, the length is c + (n − 1) + u, and the blocks are in order: comets, numbered asteroids without the first, unnumbered. Comets have isComet 1, asteroids keep theirs, every body has collided −1, and nothing else changes. |
| BinaryFileLoader.CatalogFlags | Assets/BinaryFileLoader.cs:25-50 | Every catalog body has collided −1. When every asteroid arrives with isComet 0, exactly the comets have isComet 1. |
| BinaryFileLoader.Initialize | Assets/BinaryFileLoader.cs:22-55 | The comets are flagged in place, even when the allocation then fails. The new array is Catalog of the three inputs, and the major bodies are the table. |
| BinaryFileLoader.Concatenate | Assets/BinaryFileLoader.cs:39-42 | A fresh array of the three blocks, one after the other. |
| BinaryFileLoader.FlagComets | Assets/BinaryFileLoader.cs:25-28 | Every comet gets isComet 1, and nothing else changes. |
| BinaryFileLoader.StampCollided | Assets/BinaryFileLoader.cs:47-50 | Every body gets collided −1, and nothing else changes. |
| BinaryFileLoader.ArrayCopy | Assets/BinaryFileLoader.cs:36 | The range is overwritten from the source, and the rest of the destination is kept. |
| OrbitalElements.RadiansLinear | Assets/CoroutineJsonLoader.cs:85-88 | The degree conversion is linear, maps 180 to π and maps a full turn to 2π. |
| OrbitalElements.UpdatesStopsAtFirstSmall | Assets/CoroutineJsonLoader.cs:94-105 | The loop makes 1 to 100 updates. Every update but the last is at least the tolerance, and the last is below it unless the 100 ran out. |
| OrbitalElements.CircularOrbitExact | Assets/CoroutineJsonLoader.cs:99-104 | With e = 0 the first update is exactly 0, so the solver stops after one pass with E = M, whatever sin and cos return. |
| OrbitalElements.SolveKepler | Assets/CoroutineJsonLoader.cs:94-105 | The Newton loop returns EccentricAnomaly, after the number of updates that UpdatesStopsAtFirstSmall characterises. |
| OrbitalElements.ToUnityAxes | Assets/CoroutineJsonLoader.cs:146-149 | Unity's (x, y, z) is ecliptic (x, z, y). |
| OrbitalElements.ToUnityAxesInvolution | Assets/CoroutineJsonLoader.cs:146-149 | Swapping the axes twice restores the vector. |
| OrbitalElements.RotateInPlane | Assets/CoroutineJsonLoader.cs:137-144 | Rotating any plane coordinates by the coefficients gives a vector orthogonal to the orbit normal, when cos²Ω + sin²Ω = 1. |
| OrbitalElements.StateInOrbitPlane | Assets/CoroutineJsonLoader.cs:82-150 | Position and velocity, in Unity's axes, are both orthogonal to the orbit normal. Both are rotated by the same coefficients, so they lie in one plane through the Sun. |
| OrbitalElements.ComputeStateVector | Assets/CoroutineJsonLoader.cs:82-150 | The straight-line computation and the Kepler loop give StateVector. |
| OrbitalElements.MassAlwaysZeroAsWritten | Assets/CoroutineJsonLoader.cs:64-68 | As written, every mass is 0 whatever the GM text. A GM that parses as 1 shows the difference from the intended mass. |
| OrbitalElements.MassRecoversGm | Assets/CoroutineJsonLoader.cs:64-68 | The intended mass times G is the parsed GM, and unparsable text gives mass 0. |
| OrbitalElements.BodyOf | Assets/CoroutineJsonLoader.cs:60-71 | The appended body has the state vector, a mass that recovers GM, and isComet and collided 0. |
| OrbitalElements.CoroutineJsonLoader.ProcessData | Assets/CoroutineJsonLoader.cs:60-71 | Appends exactly one body, BodyOf the record. |
| OrbitalElements.CoroutineJsonLoader.ProcessAll | Assets/CoroutineJsonLoader.cs:31-43 | One body per record, appended in input order. |
| Trail.SumSnoc | Assets/FixedLengthTrail.cs:38-39 | Appending a segment length adds it to the sum. |
| Trail.RecordAppends | Assets/FixedLengthTrail.cs:33-41 | A point is appended exactly when its distance d reaches minDistance. Then d is appended and added to the total. The trail stays well formed, with the total at most the sum of the segments. |
| Trail.TrimKeepsNewest | Assets/FixedLengthTrail.cs:43-65 | Trimming keeps a well-formed trail with at least one point. The newest point stays, the segments are a suffix of the old ones, and the points after the first are a suffix too. The total stays at most the sum, and within a non-negative budget. |
| Trail.PartialCut | Assets/FixedLengthTrail.cs:48-57 | A partial trim sets the total to exactly the budget. It moves only the first point, to `excess / firstSegment` along the first segment, and changes no segment length. |
| Trail.TrimWithinBudget | Assets/FixedLengthTrail.cs:44 | A trail within budget, or down to one point, is left as it is. |
| Trail.FixedLengthTrail.constructor | Assets/FixedLengthTrail.cs:8-17 | Empty lists and a total of 0. |
| Trail.FixedLengthTrail.Start | Assets/FixedLengthTrail.cs:19-27 | Records exactly the start point. On a fresh trail the result is valid. |
| Trail.FixedLengthTrail.Update | Assets/FixedLengthTrail.cs:29-65 | The new state is Trim of Record of the old one. The trail stays valid, and the total is within a non-negative budget. |
| Trail.FixedLengthTrail.RecordPoint | Assets/FixedLengthTrail.cs:33-41 | The new state is Record of the old one. |
| Trail.FixedLengthTrail.TrimFront | Assets/FixedLengthTrail.cs:44-65 | The loop, which ends because every pass removes a point or breaks, leaves Trim of the old state. |
| AbsorptionGlow.GlowStepEffect | Assets/BlackHoleAbsorptionGlow.cs:36-54 | Without a simulation, a black-hole slot or an image, nothing changes. Otherwise lastCollisionCount becomes body 11's collided. With no new hits the step is a pure fade, and alpha never ends above both its old value and the flash alpha (or 0). |
| AbsorptionGlow.FadeNotAbove | Assets/BlackHoleAbsorptionGlow.cs:54 | The fade never goes below 0, and with dt >= 0 and a positive duration it never raises alpha. |
| AbsorptionGlow.AlphaStaysInRange | Assets/BlackHoleAbsorptionGlow.cs:45-54 | With dt >= 0 and flashDuration > 0, an alpha in [0, flashColor.a] stays there. |
| AbsorptionGlow.BlackHoleAbsorptionGlow.constructor | Assets/BlackHoleAbsorptionGlow.cs:11-19 | The flash colour is (1, 0.6, 0.1, 0.4), the duration 0.15 and 0.1 per body, and both counters start at 0. |
| AbsorptionGlow.BlackHoleAbsorptionGlow.Start | Assets/BlackHoleAbsorptionGlow.cs:21-27 | An attached image gets the flash colour with alpha 0. |
| AbsorptionGlow.BlackHoleAbsorptionGlow.Update | Assets/BlackHoleAbsorptionGlow.cs:36-56 | The counters become GlowStep of the old ones. An active update paints the image with the flash RGB and the new alpha. |
| ConsumptionCounter.TruncateToInt | Assets/BlackHoleConsumptionCounter.cs:32 | The (int) cast truncates toward zero: the result is between 0 and the value and less than 1 away from it. |
| ConsumptionCounter.DigitsRoundTrip | Assets/BlackHoleConsumptionCounter.cs:38 | The decimal digits are '0' to '9' with no leading zero, and reading them back gives the number. |
| ConsumptionCounter.DecimalRoundTrip | Assets/BlackHoleConsumptionCounter.cs:38 | The decimal text, with its minus sign, reads back to the number. |
| ConsumptionCounter.LabelInjective | Assets/BlackHoleConsumptionCounter.cs:38 | Different counts never show the same "Consumed: " label. |
| ConsumptionCounter.CounterStepEffect | Assets/BlackHoleConsumptionCounter.cs:26-41 | Without a black-hole slot nothing changes. Otherwise lastCount becomes the truncated count, the state changes exactly when the count did, and a label is kept or left absent. A changed count is shown as "Consumed: n", and a label that was showing the stored count still shows it afterwards. A second update on the same bodies changes nothing. |
| ConsumptionCounter.BlackHoleConsumptionCounter.Update | Assets/BlackHoleConsumptionCounter.cs:26-41 | The fields become CounterStep of the old ones. lastCount is updated even when no label is attached. |
| Camera.ClampAngleRange | Assets/CameraManager.cs:88-93 | The result is in [min, max] when min <= max, and is the clamp of the angle shifted by −360, 0 or +360. An angle in [−360, 360] is only clamped, and an angle in [min, max] ⊆ [−360, 360] is unchanged. |
| Camera.LateUpdateClamps | Assets/CameraManager.cs:47-74 | Pitch is clamped to its limits after every change. Yaw is only ever turned, never clamped. Distance changes only beyond the 0.001 scroll dead zone and then lands within its limits. With the mouse up and both keys within 0.01, yaw and pitch stay put. |
| Camera.CameraManager.constructor | Assets/CameraManager.cs:12-34 | Distance 50, speeds 500, pitch limits 10 to 80, zoom limits 10 to 100, and yaw and pitch 0. |
| Camera.CameraManager.Start | Assets/CameraManager.cs:36-42 | Yaw and pitch are taken from the transform's Euler y and x. |
| Camera.CameraManager.LateUpdate | Assets/CameraManager.cs:44-74 | Yaw, pitch and distance become LateUpdateOn of the old ones and the inputs. |

## Left out

- GPU work. The compute-shader dispatch, buffers, rendering, the minor-body integration, the collision counting and the tree traversal all run in a shader that is not part of this model.
- Rounding. Floating-point rounding, overflow and NaN propagation are not modelled; host arithmetic is over the reals.
- Special functions. Square root, sine, cosine, atan2, Vector3.Distance, Vector3.Lerp and float.TryParse are uninterpreted parameters. Only sin² + cos² = 1 is assumed, and only where a lemma names it.
- NBody.NBodySimulation.StepSimulation: requires the square root not to vanish on a softened squared distance. A zero softening with coincident bodies (an infinite or NaN acceleration) is not modelled.
- OrbitalElements.SolveKepler: requires 1 − e·cos E never to vanish. An infinite or NaN Newton update is not modelled.
- OrbitalElements.ComputeStateVector: requires the same, and a non-zero angular momentum. Division by zero in double arithmetic is not modelled.
- AbsorptionGlow.BlackHoleAbsorptionGlow.Update: requires flashDuration != 0. A zero duration (an infinite fade step) is not modelled.
- ConsumptionCounter.TruncateToInt: does not model casts of values outside the int range, or of NaN, which C# leaves unspecified.
- Rotation length. That the rotation keeps lengths is not proved. Only that position and velocity share the orbit plane is proved.
- NBody.MercuryCompounds: states the `*=` over the reals, where the first call gives the reference mass squared and a second call squares it further. In the program the mass is a binary32 float: the first call already overflows to +Infinity, and a second call leaves it at +Infinity. Float overflow is not modelled.
- NBody.NBodySimulation.SetMass: writes the intended mass for Mercury, not the compounding `*=`. The as-written behaviour is NBody.SetMassOn and is stated by NBody.SetMassTouchesOnlyTarget and NBody.MercuryCompounds (see Findings).
- OrbitalElements.CoroutineJsonLoader.ProcessData, OrbitalElements.BodyOf and OrbitalElements.CoroutineJsonLoader.ProcessAll: use the parsed GM, not the always-zero mass as written. The as-written behaviour is stated by OrbitalElements.MassAlwaysZeroAsWritten (see Findings).
- Mass sliders. The slider reset at the end of ResetMass is a UI call and is left out.
- Tree call sites. RebuildBarnesHutTree's upload to the GPU buffer is left out. The method is modelled as written although its call sites are commented out.
- Engine and UI wiring:
  - sphere creation, slider listeners, ToggleTrail, ResetSpeed and ValueChangeCheck;
  - the sphere transforms that StepSimulation's last loop moves to each new position (the body array's positions are modelled, the GameObject write is not);
  - tag-based object lookup;
  - the camera's transform placement and its Input reads (the axes are parameters);
  - the LineRenderer calls of FixedLengthTrail;
  - BlackHoleEffect, AccretionDiskParticles, FollowGameObject, BodyRotation, MoonOrbit and SelectTarget.
- File access. File paths and opening files are left out. The reader takes the file's bytes.
- JSON loading. The JSON coroutine with its yield every 100 objects becomes ProcessAll over a sequence of records.
- Catalog values stay bit patterns. Catalog bodies keep their values as binary32 patterns and are not converted to reals.

## Findings

| source | as written | input that shows it | evidently intended | confidence | as-written member | corrected member |
|---|---|---|---|---|---|---|
| Assets/NBodySimulation.cs:239-241 | Mercury's case multiplies its current mass by reference mass × multiplier (`*=`), unlike every other planet | the initial table with multiplier 1.0 and target "Mercury": 3.3011e23f × 3.3011e23f overflows binary32, so the first call sets Mercury's mass to +Infinity (as does any multiplier above about 3e-9); the further compounding of a second call shows only over the reals | assign reference mass × multiplier, like the other cases | high; not executed | NBody.MercuryCompounds | NBody.IntendedSetMassIdempotent |
| Assets/CoroutineJsonLoader.cs:64-68 | a successful TryParse overwrites the parsed GM with 0, and a failed parse leaves 0, so every mass is 0 | GM text "1" parsing to 1.0: the mass is 0, not 1 / G | keep the parsed GM and use 0 only when parsing fails | high; not executed | OrbitalElements.MassAlwaysZeroAsWritten | OrbitalElements.MassRecoversGm |
