/**
 * The trajectory store and one frame's update, as functions on values.
 * The class in module Tracker is proved against these definitions.
 */
module Trajectory {
  import opened Geometry
  import opened Deprojection

  datatype Option<T> = None | Some(value: T)

  /** One stored observation: the frame timestamp and the 3D position. */
  datatype Sample = Sample(t: real, x: real, y: real, z: real)

  /** The store: marker id to its samples, in insertion order. */
  type Store = map<int, seq<Sample>>

  /** One (corner quad, id) pair of a detection result. */
  datatype Marker = Marker(corners: Quad, id: int)

  /** What the tracker reads from an aligned frame. */
  datatype Frame = Frame(timestamp: real, depth: (int, int) -> real, deproject: (Pixel, real) -> Point3)

  /** A detection result: corner quads and ids, paired by position. */
  datatype Detection = Detection(corners: seq<Quad>, ids: seq<int>)

  /** Python's zip: pairs the i-th quad with the i-th id, stopping at the shorter input. */
  function Zip(corners: seq<Quad>, ids: seq<int>): (r: seq<Marker>)
    ensures |r| == Min(|corners|, |ids|)
    ensures forall i :: 0 <= i < |r| ==> r[i] == Marker(corners[i], ids[i])
  {
    if |corners| == 0 || |ids| == 0 then []
    else [Marker(corners[0], ids[0])] + Zip(corners[1..], ids[1..])
  }

  /** The samples stored for id, or none if the id has no entry. */
  function Get(m: Store, id: int): seq<Sample>
  {
    if id in m then m[id] else []
  }

  /** Every entry of the store holds at least one sample. */
  ghost predicate NonEmptyLists(m: Store)
  {
    forall id :: id in m ==> |m[id]| > 0
  }

  /** The samples of a trajectory appear in non-decreasing timestamp order. */
  ghost predicate Chronological(s: seq<Sample>)
  {
    forall i, j :: 0 <= i < j < |s| ==> s[i].t <= s[j].t
  }

  ghost predicate AllChronological(m: Store)
  {
    forall id :: id in m ==> Chronological(m[id])
  }

  /** No stored sample is later than t. */
  ghost predicate NotAfter(m: Store, t: real)
  {
    forall id, i :: id in m && 0 <= i < |m[id]| ==> m[id][i].t <= t
  }

  /** Appending one sample to the entry of id, creating the entry on first use. */
  function Appended(m: Store, id: int, s: Sample): (m': Store)
    ensures m'.Keys == m.Keys + {id}
    ensures m'[id] == Get(m, id) + [s]
    ensures forall k :: k in m && k != id ==> m'[k] == m[k]
  {
    m[id := Get(m, id) + [s]]
  }

  /**
   * The depth gate: sample depth at the representative pixel; a positive
   * depth is deprojected, anything else yields no coordinate.
   */
  function GetCoordinate(f: Frame, q: Quad): (c: Option<Point3>)
    ensures var p := RepresentativePixel(q);
      && (c.None? <==> f.depth(p.x, p.y) <= 0.0)
      && (c.Some? ==> c.value == f.deproject(p, f.depth(p.x, p.y)))
  {
    var p := RepresentativePixel(q);
    var d := f.depth(p.x, p.y);
    if d > 0.0 then Some(f.deproject(p, d)) else None
  }

  /** The sample a marker would contribute to the store in frame f, if any. */
  function SampleOf(f: Frame, mk: Marker): Option<Sample>
  {
    match GetCoordinate(f, mk.corners)
    case Some(c) => Some(Sample(f.timestamp, c.x, c.y, c.z))
    case None => None
  }

  /** The store after one marker of frame f has been processed. */
  function ApplyMarker(m: Store, f: Frame, mk: Marker): Store
  {
    match SampleOf(f, mk)
    case Some(s) => Appended(m, mk.id, s)
    case None => m
  }

  /** The store after the markers of frame f have been processed left to right. */
  function ApplyFrame(m: Store, f: Frame, markers: seq<Marker>): Store
    decreases |markers|
  {
    if |markers| == 0 then m
    else ApplyMarker(ApplyFrame(m, f, markers[..|markers| - 1]), f, markers[|markers| - 1])
  }

  /** Independent reference: the samples frame f adds for id, one per marker with that id and positive depth. */
  function Contribution(id: int, f: Frame, markers: seq<Marker>): seq<Sample>
    decreases |markers|
  {
    if |markers| == 0 then []
    else
      var last := markers[|markers| - 1];
      var rest := Contribution(id, f, markers[..|markers| - 1]);
      if last.id == id && SampleOf(f, last).Some? then rest + [SampleOf(f, last).value] else rest
  }

  /** The number of markers of a frame that yield a sample. */
  function ValidCount(f: Frame, markers: seq<Marker>): (n: nat)
    ensures n <= |markers|
    decreases |markers|
  {
    if |markers| == 0 then 0
    else ValidCount(f, markers[..|markers| - 1]) + (if SampleOf(f, markers[|markers| - 1]).Some? then 1 else 0)
  }

  /** A non-empty store has a key. */
  lemma HasKey(m: Store)
    requires m != map[]
    ensures exists id :: id in m
  {
    if !(exists id :: id in m) {
      assert false;
    }
  }

  /** The total number of samples in the store. */
  ghost function TotalSamples(m: Store): nat
    decreases |m.Keys|
  {
    if m == map[] then 0
    else
      HasKey(m);
      var id :| id in m;
      |m[id]| + TotalSamples(m - {id})
  }

  /** TotalSamples does not depend on which key is taken first. */
  lemma {:induction false} TotalSamplesSplit(m: Store, id: int)
    requires id in m
    ensures TotalSamples(m) == |m[id]| + TotalSamples(m - {id})
    decreases |m.Keys|
  {
    var j :| j in m && TotalSamples(m) == |m[j]| + TotalSamples(m - {j});
    if j != id {
      var mj := m - {j};
      var mi := m - {id};
      assert |mj.Keys| < |m.Keys| by { assert mj.Keys == m.Keys - {j}; }
      assert |mi.Keys| < |m.Keys| by { assert mi.Keys == m.Keys - {id}; }
      TotalSamplesSplit(mj, id);
      TotalSamplesSplit(mi, j);
      assert mj - {id} == mi - {j};
    }
  }

  /** Each append adds exactly one sample to the store. */
  lemma {:induction false} TotalSamplesAppended(m: Store, id: int, s: Sample)
    ensures TotalSamples(Appended(m, id, s)) == TotalSamples(m) + 1
  {
    var m' := Appended(m, id, s);
    TotalSamplesSplit(m', id);
    if id in m {
      TotalSamplesSplit(m, id);
      assert m' - {id} == m - {id};
    } else {
      assert m' - {id} == m;
    }
  }

  /**
   * A frame update is characterised per id: an id has an entry afterwards
   * exactly when it had one before or the frame contributed to it, and its
   * samples are the old ones followed by the frame's contribution.
   */
  lemma {:induction false} ApplyFrameContents(m: Store, f: Frame, markers: seq<Marker>, id: int)
    ensures id in ApplyFrame(m, f, markers) <==> id in m || |Contribution(id, f, markers)| > 0
    ensures Get(ApplyFrame(m, f, markers), id) == Get(m, id) + Contribution(id, f, markers)
    decreases |markers|
  {
    if |markers| > 0 {
      var init := markers[..|markers| - 1];
      ApplyFrameContents(m, f, init, id);
    }
  }

  /** Every sample a frame adds carries that frame's timestamp. */
  lemma {:induction false} ContributionTimestamps(id: int, f: Frame, markers: seq<Marker>)
    ensures forall i :: 0 <= i < |Contribution(id, f, markers)| ==> Contribution(id, f, markers)[i].t == f.timestamp
    decreases |markers|
  {
    if |markers| > 0 {
      ContributionTimestamps(id, f, markers[..|markers| - 1]);
    }
  }

  /** Keys are only created together with a sample, so no entry is ever empty. */
  lemma {:induction false} ApplyFrameNonEmpty(m: Store, f: Frame, markers: seq<Marker>)
    requires NonEmptyLists(m)
    ensures NonEmptyLists(ApplyFrame(m, f, markers))
  {
    var m' := ApplyFrame(m, f, markers);
    forall id | id in m'
      ensures |m'[id]| > 0
    {
      ApplyFrameContents(m, f, markers, id);
    }
  }

  /** One frame grows the store by one sample per marker with positive depth, so by at most one per pair. */
  lemma {:induction false} ApplyFrameTotal(m: Store, f: Frame, markers: seq<Marker>)
    ensures TotalSamples(ApplyFrame(m, f, markers)) == TotalSamples(m) + ValidCount(f, markers)
    ensures TotalSamples(ApplyFrame(m, f, markers)) <= TotalSamples(m) + |markers|
    decreases |markers|
  {
    if |markers| > 0 {
      var init := markers[..|markers| - 1];
      var last := markers[|markers| - 1];
      ApplyFrameTotal(m, f, init);
      match SampleOf(f, last)
      case Some(s) => TotalSamplesAppended(ApplyFrame(m, f, init), last.id, s);
      case None =>
    }
  }

  /** A chronological, not-later-than-t trajectory extended by samples at t stays chronological. */
  lemma ExtendChronological(old_: seq<Sample>, added: seq<Sample>, t: real)
    requires Chronological(old_) && forall i :: 0 <= i < |old_| ==> old_[i].t <= t
    requires forall i :: 0 <= i < |added| ==> added[i].t == t
    ensures Chronological(old_ + added)
    ensures forall i :: 0 <= i < |old_ + added| ==> (old_ + added)[i].t <= t
  {
  }

  /** Frames applied in timestamp order keep every trajectory chronological. */
  lemma {:induction false} ApplyFrameChronological(m: Store, f: Frame, markers: seq<Marker>)
    requires AllChronological(m) && NotAfter(m, f.timestamp)
    ensures AllChronological(ApplyFrame(m, f, markers))
    ensures NotAfter(ApplyFrame(m, f, markers), f.timestamp)
  {
    var m' := ApplyFrame(m, f, markers);
    forall id | id in m'
      ensures Chronological(m'[id])
      ensures forall i :: 0 <= i < |m'[id]| ==> m'[id][i].t <= f.timestamp
    {
      ApplyFrameContents(m, f, markers, id);
      ContributionTimestamps(id, f, markers);
      ExtendChronological(Get(m, id), Contribution(id, f, markers), f.timestamp);
    }
  }

  /** Processing a marker list in two halves is the same as processing it whole. */
  lemma {:induction false} ApplyFrameConcat(m: Store, f: Frame, a: seq<Marker>, b: seq<Marker>)
    ensures ApplyFrame(m, f, a + b) == ApplyFrame(ApplyFrame(m, f, a), f, b)
    decreases |b|
  {
    if |b| == 0 {
      assert a + b == a;
    } else {
      ApplyFrameConcat(m, f, a, b[..|b| - 1]);
      assert (a + b)[..|a + b| - 1] == a + b[..|b| - 1];
      assert (a + b)[|a + b| - 1] == b[|b| - 1];
    }
  }

  /**
   * A marker without valid depth is skipped without disturbing the others:
   * the frame has the same effect as the frame with that marker removed.
   */
  lemma SkippedMarkerIsRemoved(m: Store, f: Frame, markers: seq<Marker>, i: nat)
    requires i < |markers| && GetCoordinate(f, markers[i].corners).None?
    ensures ApplyFrame(m, f, markers) == ApplyFrame(m, f, markers[..i] + markers[i + 1..])
  {
    var pre, mid, post := markers[..i], [markers[i]], markers[i + 1..];
    assert markers == pre + mid + post;
    ApplyFrameConcat(m, f, pre + mid, post);
    ApplyFrameConcat(m, f, pre, mid);
    ApplyFrameConcat(m, f, pre, post);
    assert ApplyFrame(ApplyFrame(m, f, pre), f, mid) == ApplyFrame(m, f, pre) by {
      assert mid[..0] == [];
    }
  }

  /** The frame update of a whole detection result. */
  function UpdateStore(m: Store, f: Frame, d: Detection): Store
  {
    ApplyFrame(m, f, Zip(d.corners, d.ids))
  }

  /** Frames applied one after another. */
  function ApplyFrames(m: Store, frames: seq<(Frame, Detection)>): Store
    decreases |frames|
  {
    if |frames| == 0 then m
    else UpdateStore(ApplyFrames(m, frames[..|frames| - 1]), frames[|frames| - 1].0, frames[|frames| - 1].1)
  }

  /**
   * Across a run of frames with non-decreasing timestamps, started from an
   * empty (or already chronological and earlier) store, every trajectory
   * stays in timestamp order and no entry is empty.
   */
  lemma {:induction false} ApplyFramesChronological(m: Store, frames: seq<(Frame, Detection)>)
    requires AllChronological(m) && NonEmptyLists(m)
    requires |frames| > 0 ==> NotAfter(m, frames[0].0.timestamp)
    requires forall i, j :: 0 <= i < j < |frames| ==> frames[i].0.timestamp <= frames[j].0.timestamp
    ensures AllChronological(ApplyFrames(m, frames)) && NonEmptyLists(ApplyFrames(m, frames))
    ensures |frames| > 0 ==> NotAfter(ApplyFrames(m, frames), frames[|frames| - 1].0.timestamp)
    decreases |frames|
  {
    if |frames| > 0 {
      var init := frames[..|frames| - 1];
      var (f, d) := frames[|frames| - 1];
      ApplyFramesChronological(m, init);
      var before := ApplyFrames(m, init);
      if |init| > 0 {
        var t := init[|init| - 1].0.timestamp;
        assert t <= f.timestamp;
        assert NotAfter(before, f.timestamp) by {
          forall id, i | id in before && 0 <= i < |before[id]|
            ensures before[id][i].t <= f.timestamp
          {
            assert before[id][i].t <= t;
          }
        }
      }
      ApplyFrameChronological(before, f, Zip(d.corners, d.ids));
      ApplyFrameNonEmpty(before, f, Zip(d.corners, d.ids));
    }
  }
}
