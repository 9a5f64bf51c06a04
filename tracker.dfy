/**
 * The tracker object: a dictionary from marker id to its samples that the
 * methods below update in place.
 */
module Tracker {
  import opened Deprojection
  import opened Trajectory

  class TrajectoryTracker {
    var trajectory: Store

    /** Every entry holds at least one sample: keys are created only right before an append. */
    ghost predicate Valid()
      reads this
    {
      NonEmptyLists(trajectory)
    }

    constructor ()
      ensures Valid() && trajectory == map[]
    {
      trajectory := map[];
    }

    /** Drops every trajectory, whatever the store held. */
    method Clear()
      modifies this
      ensures Valid() && trajectory == map[]
    {
      trajectory := map[];
    }

    /** Appends (timestamp, x, y, z) to the entry of id, creating it on first use. */
    method Add(timestamp: real, id: int, coord: Point3)
      requires Valid()
      modifies this
      ensures Valid()
      ensures trajectory == Appended(old(trajectory), id, Sample(timestamp, coord.x, coord.y, coord.z))
      ensures trajectory.Keys == old(trajectory).Keys + {id}
      ensures trajectory[id] == Get(old(trajectory), id) + [Sample(timestamp, coord.x, coord.y, coord.z)]
      ensures forall k :: k in old(trajectory) && k != id ==> trajectory[k] == old(trajectory)[k]
    {
      if id !in trajectory {
        trajectory := trajectory[id := []];
      }
      trajectory := trajectory[id := trajectory[id] + [Sample(timestamp, coord.x, coord.y, coord.z)]];
    }

    /**
     * Processes one frame's detections: each (quad, id) pair, in order, adds
     * a sample stamped with the frame's timestamp when the depth at the
     * representative pixel is positive, and is skipped otherwise.
     */
    method UpdateTrajectory(frame: Frame, detection: Detection)
      requires Valid()
      modifies this
      ensures Valid()
      ensures trajectory == UpdateStore(old(trajectory), frame, detection)
      ensures |detection.corners| == 0 ==> trajectory == old(trajectory)
    {
      if |detection.corners| > 0 {
        var markers := Zip(detection.corners, detection.ids);
        for i := 0 to |markers|
          invariant trajectory == ApplyFrame(old(trajectory), frame, markers[..i])
          invariant Valid()
        {
          assert markers[..i + 1][..i] == markers[..i];
          var coord := GetCoordinate(frame, markers[i].corners);
          if coord.Some? {
            Add(frame.timestamp, markers[i].id, coord.value);
          }
        }
        assert markers[..|markers|] == markers;
      }
    }
  }
}
