# RealSense ArUco trajectory tracker, modelled in Dafny

This project models the trajectory-tracking core of a tool that tracks ArUco markers
with an Intel RealSense depth camera. For each frame, the `TrajectoryTracker` takes the
marker detections (corner quads and ids). It picks a representative pixel per marker
and reads the depth there. When the depth is positive, it deprojects the pixel into a
3D point and appends `(timestamp, x, y, z)` to that marker's trajectory. The store is a
dictionary that maps each marker id to its list of samples. The frame loop clears the
store every 20 seconds, right after plotting it.

Modules, one per component:

- `Geometry` (`geometry.dfy`): truncation of float corners to integer pixels (Python
  `int()`, rounding toward zero). It also models the representative pixel: the
  truncated midpoint of the top-left / bottom-right diagonal.
- `Deprojection` (`deprojection.dfy`): an idealised, distortion-free pinhole version of
  librealsense's pixel-to-point deprojection, with its inverse projection.
- `Trajectory` (`trajectory.dfy`): the store and one frame's update as functions on
  values, with the lemmas about them. `Contribution` is an independent per-id
  reference: the samples a frame adds for one id. `ApplyFrameContents` links it to the
  left-to-right fold `ApplyFrame`.
- `Tracker` (`tracker.dfy`): class `TrajectoryTracker`. Its `trajectory: map<int, seq<Sample>>`
  field is updated in place by `Clear`, `Add` and the loop in `UpdateTrajectory`. `Add`
  and the loop of `UpdateTrajectory` are proved against the functions of `Trajectory`;
  `Clear` empties the field.
- `Session` (`session.dfy`): the frame loop's 20-second flush window. The clock reading
  is a parameter. The class `TrackingSession` holds the tracker and the window start.

A frame is modelled as its timestamp, a depth function `(int, int) -> real` and a
deprojection function `(Pixel, real) -> Point3`. The tracker relies only on the
deprojection being a function, that is, deterministic. `Deprojection.Pinhole` supplies
one such function.

Points where the code behaves in a way a reader might not expect; the model follows the code as written:

- A corner array of the wrong shape makes `reshape((4, 2))` raise. Nothing drops such
  an observation quietly. In the model, a `Quad` always has exactly four corners.
- Nothing checks the intrinsics.
- Sample timestamps come from the frame (`get_timestamp()`, the frame's capture timestamp,
  in milliseconds). The 20-second window uses the wall clock (`time.time()`, seconds). The
  code never relates the two clocks. So the model cannot state "each flushed snapshot
  only holds samples from its own window", and it does not.
- A frame whose corner list is empty is skipped because of the `len(corners) > 0` guard.
  Otherwise `zip` pairs quads with ids up to the shorter of the two lists.

## Model

| member | source | states |
|---|---|---|
| `Geometry.Truncate` | RealsenseObjectTracking/TrajectoryTracker.py:36-39 | `int()` on a corner coordinate rounds toward zero: for non-negative input the result is the floor, within 1 below; for negative input it is within 1 above |
| `Geometry.HalfTrunc` | RealsenseObjectTracking/TrajectoryTracker.py:58-59 | `int((a + b) / 2.0)` is integer halving for a non-negative sum, halving toward zero for a negative sum, and always lies between `a` and `b` |
| `Geometry.RepresentativePixelUsesDiagonal` | RealsenseObjectTracking/TrajectoryTracker.py:57-59 | two quads with the same top-left and bottom-right corners get the same pixel: the top-right and bottom-left corners are ignored |
| `Geometry.RepresentativePixelIsMidpoint` | RealsenseObjectTracking/TrajectoryTracker.py:57-59 | the pixel lies in the bounding box of the truncated diagonal corners; for non-negative coordinates it is `((tl.x + br.x) / 2, (tl.y + br.y) / 2)` |
| `Geometry.ToPixel` | RealsenseObjectTracking/TrajectoryTracker.py:36-39 | each corner coordinate converted with `int()`; its meaning is `Truncate`'s contract, applied per coordinate |
| `Geometry.RepresentativePixel` | RealsenseObjectTracking/TrajectoryTracker.py:57-59 | the truncated midpoint of the top-left / bottom-right diagonal; characterised by `HalfTrunc`, `RepresentativePixelUsesDiagonal` and `RepresentativePixelIsMidpoint` |
| `Deprojection.Deproject` | RealsenseObjectTracking/TrajectoryTracker.py:63 | the deprojected point has `z = depth` and satisfies `x * fx = (px - ppx) * depth` and `y * fy = (py - ppy) * depth` |
| `Deprojection.ProjectDeproject` | RealsenseObjectTracking/TrajectoryTracker.py:63 | for positive depth, projecting the deprojected point gives back the pixel |
| `Deprojection.WorkedExample` | RealsenseObjectTracking/TrajectoryTracker.py:63 | with fx = fy = 600 and principal point (320, 240) at depth 2: pixel (320, 240) maps to (0, 0, 2) and pixel (420, 240) maps to (1/3, 0, 2) |
| `Trajectory.Zip` | RealsenseObjectTracking/TrajectoryTracker.py:30 | pairs the i-th quad with the i-th id; the length is the shorter of the two inputs |
| `Trajectory.Appended` | RealsenseObjectTracking/TrajectoryTracker.py:46-50 | the keys become the old keys plus `id`; `id`'s list is its old list (or empty) followed by the new sample; every other list is unchanged |
| `Trajectory.GetCoordinate` | RealsenseObjectTracking/TrajectoryTracker.py:54-65 | there is no coordinate exactly when the depth at the representative pixel is ≤ 0; otherwise the coordinate is the deprojection of that pixel at that depth |
| `Trajectory.SampleOf` | RealsenseObjectTracking/TrajectoryTracker.py:41-43 | the `(timestamp, x, y, z)` a marker would add: present exactly when `GetCoordinate` gives a coordinate, stamped with the frame's timestamp (`ContributionTimestamps`) |
| `Trajectory.ApplyMarker` | RealsenseObjectTracking/TrajectoryTracker.py:41-43 | one loop iteration: `_add` of the marker's sample when present (`Appended`), the store unchanged otherwise (`SkippedMarkerIsRemoved`) |
| `Trajectory.ApplyFrame` | RealsenseObjectTracking/TrajectoryTracker.py:30-43 | the loop over the zipped pairs, left to right; characterised per id by `ApplyFrameContents`, in size by `ApplyFrameTotal`, and by `ApplyFrameNonEmpty`, `ApplyFrameChronological` and `SkippedMarkerIsRemoved` |
| `Trajectory.UpdateStore` | RealsenseObjectTracking/TrajectoryTracker.py:26-43 | the whole `updateTrajectory` on values: the fold of `ApplyFrame` over `Zip(corners, ids)`; `UpdateTrajectory` is proved equal to it |
| `Trajectory.TotalSamplesAppended` | RealsenseObjectTracking/TrajectoryTracker.py:46-50 | one append adds exactly one sample to the store: nothing is dropped or deduplicated |
| `Trajectory.ApplyFrameContents` | RealsenseObjectTracking/TrajectoryTracker.py:26-43 | after a frame, an id has an entry iff it had one before or the frame contributed to it; its list is the old list followed by the samples of the markers with that id and positive depth, in detection order |
| `Trajectory.ContributionTimestamps` | RealsenseObjectTracking/TrajectoryTracker.py:21-43 | every sample a frame adds carries that frame's timestamp |
| `Trajectory.ApplyFrameNonEmpty` | RealsenseObjectTracking/TrajectoryTracker.py:47-50 | a frame update keeps every entry non-empty, because keys are only created right before an append |
| `Trajectory.ApplyFrameTotal` | RealsenseObjectTracking/TrajectoryTracker.py:30-43 | a frame grows the store by exactly the number of markers with positive depth, so by at most the number of (quad, id) pairs |
| `Trajectory.ApplyFrameChronological` | RealsenseObjectTracking/TrajectoryTracker.py:21-50 | if no stored sample is later than the frame's timestamp, every trajectory stays sorted by timestamp and none runs past the frame |
| `Trajectory.SkippedMarkerIsRemoved` | RealsenseObjectTracking/TrajectoryTracker.py:41-43 | a marker without valid depth affects nothing: the frame has the same effect as the frame without that marker, so the other markers are still processed |
| `Trajectory.ApplyFrames` | RealsenseObjectTracking/TrajectoryTracker.py:99-118 | successive `updateTrajectory` calls of the frame loop; characterised by `ApplyFramesChronological` |
| `Trajectory.ApplyFramesChronological` | RealsenseObjectTracking/TrajectoryTracker.py:118 | across frames with non-decreasing timestamps, every trajectory stays sorted by timestamp and no entry is empty |
| `Tracker.TrajectoryTracker.constructor` | RealsenseObjectTracking/TrajectoryTracker.py:10-11 | a new tracker has an empty store |
| `Tracker.TrajectoryTracker.Clear` | RealsenseObjectTracking/TrajectoryTracker.py:14-15 | after `clear` the store is empty, whatever it held |
| `Tracker.TrajectoryTracker.Add` | RealsenseObjectTracking/TrajectoryTracker.py:46-50 | `trajectory[id]` becomes `old(trajectory[id] or []) + [(t, x, y, z)]`; the other keys and their lists are unchanged; the store stays non-empty per key |
| `Tracker.TrajectoryTracker.UpdateTrajectory` | RealsenseObjectTracking/TrajectoryTracker.py:18-43 | the loop's new store is the left-to-right fold `UpdateStore` of the old one; with no corners the store is unchanged |
| `Session.ShouldFlush` | RealsenseObjectTracking/TrajectoryTracker.py:128 | the flush test `now - start >= 20`; `Tick` and `Step` flush exactly when it holds, and `FlushIffDue` / `FlushAtFirstDue` characterise the schedule it induces |
| `Session.NextStart` | RealsenseObjectTracking/TrajectoryTracker.py:131-132 | the window start after a tick; `Tick` and `Step` leave it in the `start` field and `FlushTimesStep` ties it to the schedule `FlushTimes` |
| `Session.FlushTimes` | RealsenseObjectTracking/TrajectoryTracker.py:126-132 | the clock readings, over successive ticks, at which the loop flushes; characterised by `FlushTimesStep`, `FlushIffDue`, `FlushAtFirstDue`, `FlushTimesSpaced`, `FlushTimesAreTicks` and `FlushCountBound` |
| `Session.FlushTimesStep` | RealsenseObjectTracking/TrajectoryTracker.py:126-132 | one tick of the schedule flushes exactly when `now - start >= 20`, and the remaining ticks continue from `NextStart(start, now)`, the value `Tick` stores in `start` |
| `Session.FlushIffDue` | RealsenseObjectTracking/TrajectoryTracker.py:126-132 | a run flushes at least once if and only if some tick is at least 20 s after the window start |
| `Session.FlushAtFirstDue` | RealsenseObjectTracking/TrajectoryTracker.py:126-132 | the first flush is exactly at the first tick at least 20 s after the window start, and the rest of the schedule restarts from that tick |
| `Session.FlushTimesSpaced` | RealsenseObjectTracking/TrajectoryTracker.py:126-132 | consecutive flushes are at least 20 s apart, and the first comes at least 20 s after the start |
| `Session.FlushTimesAreTicks` | RealsenseObjectTracking/TrajectoryTracker.py:126-132 | every flush happens at one of the loop's clock readings |
| `Session.FlushCountBound` | RealsenseObjectTracking/TrajectoryTracker.py:126-132 | n flushes by time `horizon` need `horizon - start >= 20 n`: at most one flush per 20-second span |
| `Session.TrackingSession.constructor` | RealsenseObjectTracking/TrajectoryTracker.py:92-97 | the session starts with an empty tracker and the window starting at the given clock reading |
| `Session.TrackingSession.Tick` | RealsenseObjectTracking/TrajectoryTracker.py:126-132 | when `now - start >= 20`, it hands the old store to the plotter, empties the store and sets `start := now`; otherwise the store and `start` stay as they were |
| `Session.TrackingSession.Step` | RealsenseObjectTracking/TrajectoryTracker.py:118-132 | one loop pass: the frame update, then the clock check; on a flush the plotter receives the updated store and the store ends empty |

## Left out

- `plotTrajectory` (matplotlib rendering): modelled only as `Tick` returning the store it would plot.
- The `__main__` camera, OpenCV and display code, and the printing of the elapsed time: these are I/O. `time.time()` becomes the `now` parameter of `Tick` and `Step`.
- The `visualize` flag: in `TrajectoryTracker.py` it is fixed to `True`, so the model always plots. `RealsenseArUcoTracking/RealsenseTracker.py:51-57` has the same flush rule, with the whole check under `visualize`. The model covers the case where `visualize` is true.
- `RealsenseArUcoTracking/Camera.py`, `RealsenseObjectTracking/ArUcoDetector.py` and `RealsenseObjectTracking/ArUcoGenerator.py`: camera streaming, marker detection and drawing, and configuration and marker-image files. All of these are I/O or wrappers around OpenCV.
- The internals of `rs2_deproject_pixel_to_point`: the lens-distortion models and floating-point behaviour. The tracker takes any deterministic deprojection. `Deprojection.Pinhole` is the idealised rectified pinhole formula.
- Deprojection.Deproject: requires non-zero focal lengths (real division). librealsense would return infinities or NaN there.
- Floating point: coordinates, depths and timestamps are exact reals. Rounding of float32 and double is not modelled.
- `depth_frame.get_distance` raises for a pixel outside the frame. The model's depth is a total function.
- A detection whose corner array does not reshape to 4×2 makes the source raise. The model's `Quad` always has four corners, so that error path does not exist in the model.
- `ids.flatten()`: ids are a flat sequence. When no markers are found, the detector returns `None` for ids. The `len(corners) > 0` guard means ids are never touched then, and the model keeps that guard.
- The relation between frame capture timestamps (milliseconds) and the loop's wall clock is not modelled, because the source never relates them.
