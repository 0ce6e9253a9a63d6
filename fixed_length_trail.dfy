/// FixedLengthTrail (Assets/FixedLengthTrail.cs): the recorded points of a
/// body's trail, the lengths of the segments between them and their running
/// total, trimmed from the front to a length budget. Vector3.Distance and
/// Vector3.Lerp are parameters.
module Trail {
  import opened UnityMath

  /// The trail's three fields at one moment.
  datatype TrailState = TrailState(positions: seq<Vec3<real>>, segmentLengths: seq<real>, totalLength: real)

  /// At least one point, and one segment length between each two points.
  predicate WellFormed(s: TrailState) {
    |s.positions| >= 1 && |s.segmentLengths| == |s.positions| - 1
  }

  function Sum(xs: seq<real>): real {
    if |xs| == 0 then 0.0 else xs[0] + Sum(xs[1..])
  }

  /// Appending a length adds it to the sum.
  lemma {:induction false} SumSnoc(xs: seq<real>, d: real)
    ensures Sum(xs + [d]) == Sum(xs) + d
  {
    if |xs| > 0 {
      assert (xs + [d])[1..] == xs[1..] + [d];
      SumSnoc(xs[1..], d);
    }
  }

  /// The recording half of Update: a point at least `minDistance` from the
  /// last one is appended, with its distance as the new segment length.
  function Record(s: TrailState, currentPos: Vec3<real>, minDistance: real,
                  distance: (Vec3<real>, Vec3<real>) -> real): TrailState
    requires WellFormed(s)
  {
    var d := distance(s.positions[|s.positions| - 1], currentPos);
    if d >= minDistance then
      TrailState(s.positions + [currentPos], s.segmentLengths + [d], s.totalLength + d)
    else s
  }

  /// Recording appends exactly when the distance reaches minDistance, adds
  /// that distance to the total, and keeps the trail well formed with the
  /// total no larger than the sum of its segments.
  lemma RecordAppends(s: TrailState, currentPos: Vec3<real>, minDistance: real,
                      distance: (Vec3<real>, Vec3<real>) -> real)
    requires WellFormed(s)
    ensures var r := Record(s, currentPos, minDistance, distance);
      var d := distance(s.positions[|s.positions| - 1], currentPos);
      && WellFormed(r)
      && (d >= minDistance ==> r.positions == s.positions + [currentPos]
                                 && r.segmentLengths == s.segmentLengths + [d]
                                 && r.totalLength == s.totalLength + d)
      && (d < minDistance ==> r == s)
      && (s.totalLength <= Sum(s.segmentLengths) ==> r.totalLength <= Sum(r.segmentLengths))
  {
    SumSnoc(s.segmentLengths, distance(s.positions[|s.positions| - 1], currentPos));
  }

  /// The trimming half of Update: while the total is over the budget and
  /// more than one point is left, either drop the first point and segment,
  /// or, when that would go under the budget, move the first point along
  /// its segment so that exactly the excess is cut, and stop.
  function Trim(s: TrailState, maxTrailLength: real,
                lerp: (Vec3<real>, Vec3<real>, real) -> Vec3<real>): TrailState
    requires WellFormed(s)
    decreases |s.positions|
  {
    if s.totalLength > maxTrailLength && |s.positions| > 1 then
      var firstSegment := s.segmentLengths[0];
      if s.totalLength - firstSegment < maxTrailLength then
        var excess := s.totalLength - maxTrailLength;
        TrailState(s.positions[0 := lerp(s.positions[0], s.positions[1], excess / firstSegment)],
                   s.segmentLengths, maxTrailLength)
      else
        Trim(TrailState(s.positions[1..], s.segmentLengths[1..], s.totalLength - firstSegment), maxTrailLength, lerp)
    else s
  }

  /// What trimming keeps: a well-formed trail whose newest point is the
  /// old newest point; the segment lengths are a suffix of the old ones
  /// (the first kept one unchanged even on a partial cut); the points after
  /// the first are a suffix of the old points; and, if the total did not
  /// exceed the sum of the segments, it still does not, and it is within a
  /// non-negative budget.
  lemma {:induction false} TrimKeepsNewest(s: TrailState, maxTrailLength: real,
                                           lerp: (Vec3<real>, Vec3<real>, real) -> Vec3<real>)
    requires WellFormed(s)
    ensures var r := Trim(s, maxTrailLength, lerp);
      && WellFormed(r)
      && 1 <= |r.positions| <= |s.positions|
      && r.positions[|r.positions| - 1] == s.positions[|s.positions| - 1]
      && r.segmentLengths == s.segmentLengths[|s.positions| - |r.positions|..]
      && r.positions[1..] == s.positions[|s.positions| - |r.positions| + 1..]
      && (s.totalLength <= Sum(s.segmentLengths) ==> r.totalLength <= Sum(r.segmentLengths))
      && (s.totalLength <= Sum(s.segmentLengths) && maxTrailLength >= 0.0 ==> r.totalLength <= maxTrailLength)
    decreases |s.positions|
  {
    if s.totalLength > maxTrailLength && |s.positions| > 1 {
      var firstSegment := s.segmentLengths[0];
      if s.totalLength - firstSegment >= maxTrailLength {
        var next := TrailState(s.positions[1..], s.segmentLengths[1..], s.totalLength - firstSegment);
        TrimKeepsNewest(next, maxTrailLength, lerp);
      }
    } else if |s.positions| == 1 {
      assert s.segmentLengths == [];
    }
  }

  /// A partial cut: the total becomes exactly the budget, only the first
  /// point moves (to the point `excess / firstSegment` of the way along the
  /// first segment), and no segment length changes.
  lemma PartialCut(s: TrailState, maxTrailLength: real, lerp: (Vec3<real>, Vec3<real>, real) -> Vec3<real>)
    requires WellFormed(s) && |s.positions| > 1
    requires maxTrailLength < s.totalLength && s.totalLength - s.segmentLengths[0] < maxTrailLength
    ensures var r := Trim(s, maxTrailLength, lerp);
      && r.totalLength == maxTrailLength
      && r.segmentLengths == s.segmentLengths
      && |r.positions| == |s.positions|
      && r.positions[1..] == s.positions[1..]
      && r.positions[0] == lerp(s.positions[0], s.positions[1],
                                (s.totalLength - maxTrailLength) / s.segmentLengths[0])
  {
  }

  /// A trail within its budget, or down to one point, is left as it is.
  lemma TrimWithinBudget(s: TrailState, maxTrailLength: real, lerp: (Vec3<real>, Vec3<real>, real) -> Vec3<real>)
    requires WellFormed(s) && (s.totalLength <= maxTrailLength || |s.positions| == 1)
    ensures Trim(s, maxTrailLength, lerp) == s
  {
  }

  class FixedLengthTrail {
    var maxTrailLength: real
    var minDistance: real
    var positions: seq<Vec3<real>>
    var segmentLengths: seq<real>
    var totalLength: real

    function State(): TrailState
      reads this
    {
      TrailState(positions, segmentLengths, totalLength)
    }

    /// The trail after Start: well formed, with the total no larger than
    /// the sum of the segment lengths.
    ghost predicate Valid()
      reads this
    {
      WellFormed(State()) && totalLength <= Sum(segmentLengths)
    }

    /// The inspector fields and empty lists, with a total of 0.
    constructor (maxTrailLength: real, minDistance: real)
      ensures this.maxTrailLength == maxTrailLength && this.minDistance == minDistance
      ensures positions == [] && segmentLengths == [] && totalLength == 0.0
    {
      this.maxTrailLength := maxTrailLength;
      this.minDistance := minDistance;
      positions := [];
      segmentLengths := [];
      totalLength := 0.0;
    }

    /// Start records the current position; on a fresh trail that makes it
    /// the only point, with no segments and a total of 0.
    method Start(startPos: Vec3<real>)
      modifies this
      ensures positions == old(positions) + [startPos]
      ensures segmentLengths == old(segmentLengths) && totalLength == old(totalLength)
      ensures maxTrailLength == old(maxTrailLength) && minDistance == old(minDistance)
      ensures old(positions) == [] && old(segmentLengths) == [] && old(totalLength) == 0.0 ==> Valid()
    {
      positions := positions + [startPos];
    }

    /// Update(currentPos): record the point if it is far enough from the
    /// last one, then trim from the front. A non-negative budget is kept.
    method Update(currentPos: Vec3<real>, distance: (Vec3<real>, Vec3<real>) -> real,
                  lerp: (Vec3<real>, Vec3<real>, real) -> Vec3<real>)
      requires Valid()
      modifies this
      ensures Valid()
      ensures maxTrailLength == old(maxTrailLength) && minDistance == old(minDistance)
      ensures State() == Trim(Record(old(State()), currentPos, old(minDistance), distance), maxTrailLength, lerp)
      ensures maxTrailLength >= 0.0 ==> totalLength <= maxTrailLength
    {
      RecordAppends(State(), currentPos, minDistance, distance);
      RecordPoint(currentPos, distance);
      TrimKeepsNewest(State(), maxTrailLength, lerp);
      TrimFront(lerp);
    }

    /// The recording step of Update.
    method RecordPoint(currentPos: Vec3<real>, distance: (Vec3<real>, Vec3<real>) -> real)
      requires WellFormed(State())
      modifies this
      ensures maxTrailLength == old(maxTrailLength) && minDistance == old(minDistance)
      ensures State() == Record(old(State()), currentPos, minDistance, distance)
    {
      if distance(positions[|positions| - 1], currentPos) >= minDistance {
        var d := distance(positions[|positions| - 1], currentPos);
        segmentLengths := segmentLengths + [d];
        totalLength := totalLength + d;
        positions := positions + [currentPos];
      }
    }

    /// The trim loop of Update.
    method TrimFront(lerp: (Vec3<real>, Vec3<real>, real) -> Vec3<real>)
      requires WellFormed(State())
      modifies this
      ensures maxTrailLength == old(maxTrailLength) && minDistance == old(minDistance)
      ensures State() == Trim(old(State()), maxTrailLength, lerp)
    {
      ghost var target := Trim(State(), maxTrailLength, lerp);
      while totalLength > maxTrailLength && |positions| > 1
        invariant WellFormed(State())
        invariant maxTrailLength == old(maxTrailLength) && minDistance == old(minDistance)
        invariant Trim(State(), maxTrailLength, lerp) == target
        decreases |positions|
      {
        var firstSegment := segmentLengths[0];
        if totalLength - firstSegment < maxTrailLength {
          var excess := totalLength - maxTrailLength;
          var newFirstPos := lerp(positions[0], positions[1], excess / firstSegment);
          positions := positions[0 := newFirstPos];
          totalLength := maxTrailLength;
          break;
        } else {
          totalLength := totalLength - firstSegment;
          segmentLengths := segmentLengths[1..];
          positions := positions[1..];
        }
      }
    }
  }
}
