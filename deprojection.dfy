/**
 * An idealised stand-in for librealsense's pixel-to-point deprojection:
 * the rectified pinhole model, with no lens distortion. The tracker itself
 * only sees a deprojection as a deterministic function of (pixel, depth);
 * this module gives one such function and its inverse.
 */
module Deprojection {
  import opened Geometry

  /** A point in metres in the depth camera's coordinate frame. */
  datatype Point3 = Point3(x: real, y: real, z: real)

  /** Principal point (ppx, ppy) and focal lengths (fx, fy), in pixels. */
  datatype Intrinsics = Intrinsics(ppx: real, ppy: real, fx: real, fy: real)

  predicate WellFormed(k: Intrinsics)
  {
    k.fx != 0.0 && k.fy != 0.0
  }

  /** Pixel plus depth to a 3D point: offset from the principal point, unscaled by the focal length, times depth. */
  function Deproject(k: Intrinsics, p: Pixel, depth: real): (q: Point3)
    requires WellFormed(k)
    ensures q.z == depth
    ensures q.x * k.fx == (p.x as real - k.ppx) * depth
    ensures q.y * k.fy == (p.y as real - k.ppy) * depth
  {
    Point3((p.x as real - k.ppx) / k.fx * depth, (p.y as real - k.ppy) / k.fy * depth, depth)
  }

  /** The forward pinhole projection of a point in front of the camera. */
  function Project(k: Intrinsics, q: Point3): (u: (real, real))
    requires q.z != 0.0
  {
    (q.x / q.z * k.fx + k.ppx, q.y / q.z * k.fy + k.ppy)
  }

  /** Projecting a deprojected pixel gives back that pixel, for every positive depth. */
  lemma ProjectDeproject(k: Intrinsics, p: Pixel, depth: real)
    requires WellFormed(k) && depth > 0.0
    ensures Project(k, Deproject(k, p, depth)) == (p.x as real, p.y as real)
  {
    var q := Deproject(k, p, depth);
    var ux := (p.x as real - k.ppx) / k.fx;
    var uy := (p.y as real - k.ppy) / k.fy;
    assert q.x / q.z == ux by {
      assert q.x == ux * depth && q.z == depth;
      DivCancel(ux, depth);
    }
    assert q.y / q.z == uy by {
      assert q.y == uy * depth && q.z == depth;
      DivCancel(uy, depth);
    }
    assert ux * k.fx + k.ppx == p.x as real;
    assert uy * k.fy + k.ppy == p.y as real;
    assert Project(k, q).0 == p.x as real;
    assert Project(k, q).1 == p.y as real;
  }

  lemma DivCancel(u: real, d: real)
    requires d != 0.0
    ensures u * d / d == u
  {
  }

  /** The deprojection handed to the tracker for a frame with intrinsics k. */
  function Pinhole(k: Intrinsics): (d: (Pixel, real) -> Point3)
    requires WellFormed(k)
    ensures forall p, depth :: d(p, depth) == Deproject(k, p, depth)
  {
    (p: Pixel, depth: real) => Deproject(k, p, depth)
  }

  /** The worked case: fx = fy = 600, principal point (320, 240), depth 2 m. */
  lemma WorkedExample()
    ensures Deproject(Intrinsics(320.0, 240.0, 600.0, 600.0), Pixel(320, 240), 2.0) == Point3(0.0, 0.0, 2.0)
    ensures Deproject(Intrinsics(320.0, 240.0, 600.0, 600.0), Pixel(420, 240), 2.0) == Point3(1.0 / 3.0, 0.0, 2.0)
  {
  }
}
