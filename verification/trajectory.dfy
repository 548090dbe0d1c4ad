/**
 * The pre-flight trajectory matcher `Habhub` (identical in kikyu-111.rb and
 * rstrack.rb): a cursor that follows the balloon along a planned profile,
 * and the predicted track built from the profile relative to that cursor.
 *
 * A waypoint is `(longitude, latitude, altitude)`. The profile is read from a
 * KML file by kikyu-111.rb and rstrack.rb; here it is an input sequence together with the two
 * planned vertical speeds found in that file.
 */
module Trajectory {
  import opened Wrappers

  /** A waypoint or track point: longitude, latitude, altitude. */
  type Point = (real, real, real)

  datatype Profile = Profile(coords: seq<Point>, plannedAscentRate: real, plannedLandingSpeed: real)

  /**
   * The index of the highest waypoint. Ruby's `max_by` keeps the
   * first of equal maxima, so every earlier waypoint is strictly lower.
   */
  function Apex(coords: seq<Point>): (i: nat)
    requires |coords| > 0
    ensures i < |coords|
    ensures forall j :: 0 <= j < |coords| ==> coords[j].2 <= coords[i].2
    ensures forall j :: 0 <= j < i ==> coords[j].2 < coords[i].2
  {
    HighestAmong(coords, |coords|)
  }

  /** `max_by` over the first `n` waypoints. */
  function HighestAmong(coords: seq<Point>, n: nat): (i: nat)
    requires 0 < n <= |coords|
    ensures i < n
    ensures forall j :: 0 <= j < n ==> coords[j].2 <= coords[i].2
    ensures forall j :: 0 <= j < i ==> coords[j].2 < coords[i].2
  {
    if n == 1 then 0
    else
      var k := HighestAmong(coords, n - 1);
      if coords[n - 1].2 > coords[k].2 then n - 1 else k
  }

  /**
   * The condition the cursor keeps advancing on: below the target altitude
   * while climbing to it, above it otherwise.
   */
  predicate Continues(waypointAlt: real, altitude: real, below: bool)
  {
    if below then waypointAlt < altitude else waypointAlt > altitude
  }

  /** The cursor's scan: step forward while waypoints remain and the condition holds. */
  function Scan(coords: seq<Point>, i: nat, altitude: real, below: bool): (j: nat)
    ensures j >= i
    ensures i <= |coords| ==> j <= |coords|
    ensures i > |coords| ==> j == i
    ensures forall k :: i <= k < j ==> Continues(coords[k].2, altitude, below)
    ensures j < |coords| ==> !Continues(coords[j].2, altitude, below)
    decreases |coords| - i
  {
    if i < |coords| && Continues(coords[i].2, altitude, below) then
      Scan(coords, i + 1, altitude, below)
    else
      i
  }

  /** Where the scan of `find_start` starts: not before the apex unless climbing. */
  function ScanFrom(coords: seq<Point>, cursor: nat, climbing: bool): nat
    requires |coords| > 0
  {
    if climbing then cursor else if cursor < Apex(coords) then Apex(coords) else cursor
  }

  /** Whether `find_start` scans for the first waypoint at or above `altitude`. */
  predicate ScansUp(coords: seq<Point>, altitude: real, climbing: bool)
    requires |coords| > 0
  {
    climbing && altitude < coords[Apex(coords)].2
  }

  /**
   * `Habhub#find_start(altitude, climb_p)` from cursor `cursor`; it returns
   * the new cursor, and the waypoint it reports is `coords[next]`.
   *
   * While climbing below the apex it stops at the first waypoint from the
   * cursor on that is not below `altitude`; otherwise (after first moving to
   * the apex when not climbing) at the first that is not above it. The end
   * of the profile clamps the cursor to the last waypoint.
   */
  function FindStart(coords: seq<Point>, cursor: nat, altitude: real, climbing: bool): (next: nat)
    requires |coords| > 0
    ensures next < |coords|
    ensures next >= cursor || next == |coords| - 1
    ensures !climbing ==> next >= Apex(coords)
    ensures var from := ScanFrom(coords, cursor, climbing);
            && (forall k :: from <= k < next ==> Continues(coords[k].2, altitude, ScansUp(coords, altitude, climbing)))
            && (from <= next < |coords| - 1 ==> !Continues(coords[next].2, altitude, ScansUp(coords, altitude, climbing)))
            && (from < |coords| ==> from <= next)
  {
    var from := ScanFrom(coords, cursor, climbing);
    var stop := Scan(coords, from, altitude, ScansUp(coords, altitude, climbing));
    if stop < |coords| - 1 then stop else |coords| - 1
  }

  /** A second call with the same arguments leaves the cursor where the first put it. */
  lemma FindStartIdempotent(coords: seq<Point>, cursor: nat, altitude: real, climbing: bool)
    requires |coords| > 0
    ensures var next := FindStart(coords, cursor, altitude, climbing);
            FindStart(coords, next, altitude, climbing) == next
  {
    var next := FindStart(coords, cursor, altitude, climbing);
    var below := ScansUp(coords, altitude, climbing);
    assert ScanFrom(coords, next, climbing) == next;
    if next < |coords| - 1 {
      assert !Continues(coords[next].2, altitude, below);
    }
  }

  /**
   * The two scales of `prediction`: the active phase is stretched by planned
   * speed over observed speed, the other phase is left as planned. Ruby's
   * division by a reported speed of zero yields no finite track; here it
   * yields `None`.
   */
  function Scales(p: Profile, climbing: bool, speed: Option<real>): (r: Option<(real, real)>)
    ensures speed.None? ==> r == Some((1.0, 1.0))
    ensures speed.Some? && speed.value == 0.0 ==> r.None?
    ensures speed.Some? && speed.value != 0.0 ==>
              && r.Some?
              && (climbing ==> r.value.0 * speed.value == p.plannedAscentRate && r.value.1 == 1.0)
              && (!climbing ==> r.value.0 == 1.0 && r.value.1 * speed.value == p.plannedLandingSpeed)
  {
    match speed
    case None => Some((1.0, 1.0))
    case Some(s) =>
      if s == 0.0 then None
      else if climbing then Some((p.plannedAscentRate / s, 1.0))
      else Some((1.0, p.plannedLandingSpeed / s))
  }

  /**
   * A balloon that climbs 1.2 times faster than planned has the ascent part
   * of its track scaled by 5/6, and the descent left unscaled.
   */
  lemma FasterClimbShortensTrack(p: Profile)
    requires p.plannedAscentRate == 5.0
    ensures Scales(p, true, Some(6.0)) == Some((5.0 / 6.0, 1.0))
    ensures Scales(p, false, Some(6.0)).value.0 == 1.0
  {
  }

  /** A waypoint as an offset from `origin`, scaled, plus `offset`; the altitude is kept. */
  function Relative(x: Point, origin: Point, scale: real, offset: (real, real)): Point
  {
    ((x.0 - origin.0) * scale + offset.0, (x.1 - origin.1) * scale + offset.1, x.2)
  }

  /** Unscaled offsets compose: measured from `a` and moved by `a`'s offset from `s`, a point is measured from `s`. */
  lemma UnitOffsetsCompose(x: Point, a: Point, s: Point)
    ensures Relative(x, s, 1.0, (0.0, 0.0)) == (x.0 - s.0, x.1 - s.1, x.2)
    ensures Relative(x, a, 1.0, (a.0 - s.0, a.1 - s.1)) == (x.0 - s.0, x.1 - s.1, x.2)
  {
  }

  function RelativeAll(xs: seq<Point>, origin: Point, scale: real, offset: (real, real)): (r: seq<Point>)
    ensures |r| == |xs|
    ensures forall k :: 0 <= k < |xs| ==> r[k] == Relative(xs[k], origin, scale, offset)
  {
    if |xs| == 0 then [] else [Relative(xs[0], origin, scale, offset)] + RelativeAll(xs[1..], origin, scale, offset)
  }

  /** The later of apex and cursor: the waypoint the descent is measured from. */
  function Pivot(coords: seq<Point>, i: nat): (pivot: nat)
    requires i < |coords|
    ensures pivot < |coords|
  {
    if Apex(coords) < i then i else Apex(coords)
  }

  /**
   * The first part of `prediction`'s track, the waypoints from the cursor to
   * the apex relative to the cursor's waypoint: one point per waypoint from the
   * cursor up to and including the apex, none once the cursor is past it.
   */
  function AscentPart(coords: seq<Point>, i: nat, scale: real): (r: seq<Point>)
    requires i < |coords|
    ensures i <= Apex(coords) ==> |r| == Apex(coords) - i + 1
    ensures i > Apex(coords) ==> r == []
    ensures forall k :: 0 <= k < |r| ==> r[k] == Relative(coords[i + k], coords[i], scale, (0.0, 0.0))
  {
    var apex := Apex(coords);
    if i <= apex then
      var xs := coords[i..apex + 1];
      assert forall k :: 0 <= k < |xs| ==> xs[k] == coords[i + k];
      RelativeAll(xs, coords[i], scale, (0.0, 0.0))
    else
      []
  }

  /** The horizontal position the descent continues from: the last ascent point, or the origin. */
  function JoinOffset(ascent: seq<Point>): (real, real)
  {
    if |ascent| == 0 then (0.0, 0.0) else (ascent[|ascent| - 1].0, ascent[|ascent| - 1].1)
  }

  /** The second part: every waypoint after the pivot, relative to the pivot, moved by `offset`. */
  function DescentPart(coords: seq<Point>, i: nat, scale: real, offset: (real, real)): (r: seq<Point>)
    requires i < |coords|
    ensures |r| == |coords| - Pivot(coords, i) - 1
    ensures forall k :: 0 <= k < |r| ==>
              r[k] == Relative(coords[Pivot(coords, i) + 1 + k], coords[Pivot(coords, i)], scale, offset)
  {
    var pivot := Pivot(coords, i);
    var xs := coords[pivot + 1..];
    assert forall k :: 0 <= k < |xs| ==> xs[k] == coords[pivot + 1 + k];
    RelativeAll(xs, coords[pivot], scale, offset)
  }

  /**
   * The track `prediction` builds once `find_start` has put the cursor at
   * `i`: the ascent part, then the descent part continued from its last
   * point. An empty track becomes the single point `(0, 0, 0)`.
   */
  function Track(coords: seq<Point>, i: nat, ascentScale: real, descentScale: real): (r: seq<Point>)
    requires i < |coords|
    ensures |r| >= 1
  {
    var ascent := AscentPart(coords, i, ascentScale);
    var res := ascent + DescentPart(coords, i, descentScale, JoinOffset(ascent));
    if |res| == 0 then [(0.0, 0.0, 0.0)] else res
  }

  /**
   * Shape of the track up to the apex: one point per waypoint from the
   * cursor on, starting at the origin at the cursor's altitude, every
   * altitude copied from its waypoint.
   */
  lemma TrackFromCursor(coords: seq<Point>, i: nat, ascentScale: real, descentScale: real)
    requires i < |coords|
    ensures var r := Track(coords, i, ascentScale, descentScale);
            i <= Apex(coords) ==>
            && |r| == |coords| - i
            && r[0] == (0.0, 0.0, coords[i].2)
            && forall k :: 0 <= k < |r| ==> r[k].2 == coords[i + k].2
  {
    if i <= Apex(coords) {
      var ascent := AscentPart(coords, i, ascentScale);
      var descent := DescentPart(coords, i, descentScale, JoinOffset(ascent));
      var r := ascent + descent;
      assert Track(coords, i, ascentScale, descentScale) == r;
      forall k | 0 <= k < |r|
        ensures r[k].2 == coords[i + k].2
      {
        if k >= |ascent| {
          assert r[k] == descent[k - |ascent|];
        }
      }
    }
  }

  /** Up to the apex each point is its waypoint's scaled offset from the cursor's waypoint. */
  lemma AscentFromCursor(coords: seq<Point>, i: nat, ascentScale: real, descentScale: real)
    requires i < |coords| && i <= Apex(coords)
    ensures var r := Track(coords, i, ascentScale, descentScale);
            && Apex(coords) - i < |r|
            && forall k :: 0 <= k <= Apex(coords) - i ==>
                 r[k] == Relative(coords[i + k], coords[i], ascentScale, (0.0, 0.0))
  {
    var ascent := AscentPart(coords, i, ascentScale);
    var descent := DescentPart(coords, i, descentScale, JoinOffset(ascent));
    var r := ascent + descent;
    assert Track(coords, i, ascentScale, descentScale) == r;
    forall k | 0 <= k <= Apex(coords) - i
      ensures r[k] == Relative(coords[i + k], coords[i], ascentScale, (0.0, 0.0))
    {
      assert r[k] == ascent[k];
    }
  }

  /**
   * Past the apex the track is the rest of the profile after the cursor,
   * relative to the cursor's waypoint; at the last waypoint it is the
   * default single point.
   */
  lemma TrackPastApex(coords: seq<Point>, i: nat, ascentScale: real, descentScale: real)
    requires i < |coords| && Apex(coords) < i
    ensures var r := Track(coords, i, ascentScale, descentScale);
            && (i == |coords| - 1 ==> r == [(0.0, 0.0, 0.0)])
            && (i < |coords| - 1 ==>
                  && |r| == |coords| - i - 1
                  && forall k :: 0 <= k < |r| ==> r[k] == Relative(coords[i + 1 + k], coords[i], descentScale, (0.0, 0.0)))
  {
    var descent := DescentPart(coords, i, descentScale, (0.0, 0.0));
    var r := Track(coords, i, ascentScale, descentScale);
    assert Pivot(coords, i) == i;
    assert AscentPart(coords, i, ascentScale) == [];
    assert r == if |descent| == 0 then [(0.0, 0.0, 0.0)] else descent;
    if i < |coords| - 1 {
      forall k | 0 <= k < |r|
        ensures r[k] == Relative(coords[i + 1 + k], coords[i], descentScale, (0.0, 0.0))
      {
        assert r[k] == descent[k];
      }
    }
  }

  /**
   * The descent joins the ascent at the apex: each point after it is the
   * apex point of the track plus the descent scale times the waypoint's
   * offset from the apex waypoint.
   */
  lemma DescentFromApex(coords: seq<Point>, i: nat, ascentScale: real, descentScale: real)
    requires i < |coords| && i <= Apex(coords)
    ensures var r := Track(coords, i, ascentScale, descentScale);
            var a := Apex(coords) - i;
            && a < |r|
            && forall k :: a < k < |r| ==>
                 r[k] == Relative(coords[i + k], coords[Apex(coords)], descentScale, (r[a].0, r[a].1))
  {
    var ascent := AscentPart(coords, i, ascentScale);
    var descent := DescentPart(coords, i, descentScale, JoinOffset(ascent));
    var r := ascent + descent;
    assert Track(coords, i, ascentScale, descentScale) == r;
    var a := Apex(coords) - i;
    assert r[a] == ascent[a];
    forall k | a < k < |r|
      ensures r[k] == Relative(coords[i + k], coords[Apex(coords)], descentScale, (r[a].0, r[a].1))
    {
      assert r[k] == descent[k - |ascent|];
    }
  }

  /** With both scales 1 every point of the track is its waypoint's offset from the cursor's waypoint. */
  lemma UnscaledTrackIsOffset(coords: seq<Point>, i: nat)
    requires i < |coords|
    ensures var r := Track(coords, i, 1.0, 1.0);
            i <= Apex(coords) ==>
            && |r| == |coords| - i
            && forall k :: 0 <= k < |r| ==>
                 r[k] == (coords[i + k].0 - coords[i].0, coords[i + k].1 - coords[i].1, coords[i + k].2)
    ensures var r := Track(coords, i, 1.0, 1.0);
            Apex(coords) < i < |coords| - 1 ==>
            && |r| == |coords| - i - 1
            && forall k :: 0 <= k < |r| ==>
                 r[k] == (coords[i + 1 + k].0 - coords[i].0, coords[i + 1 + k].1 - coords[i].1, coords[i + 1 + k].2)
  {
    if i <= Apex(coords) {
      UnscaledUpToApex(coords, i);
    } else if i < |coords| - 1 {
      UnscaledPastApex(coords, i);
    }
  }

  lemma UnscaledUpToApex(coords: seq<Point>, i: nat)
    requires i < |coords| && i <= Apex(coords)
    ensures var r := Track(coords, i, 1.0, 1.0);
            && |r| == |coords| - i
            && forall k :: 0 <= k < |r| ==>
                 r[k] == (coords[i + k].0 - coords[i].0, coords[i + k].1 - coords[i].1, coords[i + k].2)
  {
    var r := Track(coords, i, 1.0, 1.0);
    TrackFromCursor(coords, i, 1.0, 1.0);
    AscentFromCursor(coords, i, 1.0, 1.0);
    DescentFromApex(coords, i, 1.0, 1.0);
    ChainedOffsets(r, coords, i, Apex(coords));
  }

  /**
   * Unscaled pieces chained at waypoint `apex` add up: every point is its
   * waypoint's offset from waypoint `i`.
   */
  lemma ChainedOffsets(r: seq<Point>, coords: seq<Point>, i: nat, apex: nat)
    requires |r| == |coords| - i && i <= apex < |coords|
    requires forall k :: 0 <= k <= apex - i ==> r[k] == Relative(coords[i + k], coords[i], 1.0, (0.0, 0.0))
    requires forall k :: apex - i < k < |r| ==>
               r[k] == Relative(coords[i + k], coords[apex], 1.0, (r[apex - i].0, r[apex - i].1))
    ensures forall k :: 0 <= k < |r| ==> r[k] == (coords[i + k].0 - coords[i].0, coords[i + k].1 - coords[i].1, coords[i + k].2)
  {
    UnitOffsetsCompose(coords[apex], coords[apex], coords[i]);
    forall k | 0 <= k < |r|
      ensures r[k] == (coords[i + k].0 - coords[i].0, coords[i + k].1 - coords[i].1, coords[i + k].2)
    {
      UnitOffsetsCompose(coords[i + k], coords[apex], coords[i]);
    }
  }

  lemma UnscaledPastApex(coords: seq<Point>, i: nat)
    requires i < |coords| - 1 && Apex(coords) < i
    ensures var r := Track(coords, i, 1.0, 1.0);
            && |r| == |coords| - i - 1
            && forall k :: 0 <= k < |r| ==>
                 r[k] == (coords[i + 1 + k].0 - coords[i].0, coords[i + 1 + k].1 - coords[i].1, coords[i + 1 + k].2)
  {
    var r := Track(coords, i, 1.0, 1.0);
    TrackPastApex(coords, i, 1.0, 1.0);
    forall k | 0 <= k < |r|
      ensures r[k] == (coords[i + 1 + k].0 - coords[i].0, coords[i + 1 + k].1 - coords[i].1, coords[i + 1 + k].2)
    {
      UnitOffsetsCompose(coords[i + 1 + k], coords[i], coords[i]);
    }
  }

  /** What `prediction` returns together with the cursor it leaves behind. */
  datatype Forecast = Forecast(cursor: nat, track: Option<seq<Point>>)

  /**
   * `Habhub#prediction(altitude, climb_p, speed)` from cursor `cursor`: the
   * cursor moves by `find_start` whatever the speed, and the track is the
   * profile seen from the new cursor with the active phase rescaled.
   */
  function Prediction(p: Profile, cursor: nat, altitude: real, climbing: bool, speed: Option<real>): (f: Forecast)
    requires |p.coords| > 0
    ensures f.cursor == FindStart(p.coords, cursor, altitude, climbing)
    ensures f.track.Some? <==> Scales(p, climbing, speed).Some?
    ensures f.track.Some? ==> |f.track.value| >= 1
    ensures f.track.Some? && f.cursor <= Apex(p.coords) ==>
              && |f.track.value| == |p.coords| - f.cursor
              && f.track.value[0] == (0.0, 0.0, p.coords[f.cursor].2)
  {
    var next := FindStart(p.coords, cursor, altitude, climbing);
    match Scales(p, climbing, speed)
    case None => Forecast(next, None)
    case Some(scales) =>
      TrackFromCursor(p.coords, next, scales.0, scales.1);
      Forecast(next, Some(Track(p.coords, next, scales.0, scales.1)))
  }

  /**
   * The whole track at given ratios: the ascent ratio up to the apex, the
   * descent ratio after it (continued from the apex point), and past the
   * apex only the descent, scaled from the cursor's waypoint.
   */
  predicate ScaledTrack(coords: seq<Point>, i: nat, ascentScale: real, descentScale: real, r: seq<Point>)
    requires i < |coords|
  {
    var apex := Apex(coords);
    && (i <= apex ==>
          && |r| == |coords| - i
          && (forall k :: 0 <= k <= apex - i ==>
                r[k] == Relative(coords[i + k], coords[i], ascentScale, (0.0, 0.0)))
          && (forall k :: apex - i < k < |r| ==>
                r[k] == Relative(coords[i + k], coords[apex], descentScale, (r[apex - i].0, r[apex - i].1))))
    && (apex < i < |coords| - 1 ==>
          && |r| == |coords| - i - 1
          && forall k :: 0 <= k < |r| ==> r[k] == Relative(coords[i + 1 + k], coords[i], descentScale, (0.0, 0.0)))
    && (apex < i == |coords| - 1 ==> r == [(0.0, 0.0, 0.0)])
  }

  /** `Track` is drawn with the ratios it is given. */
  lemma TrackIsScaled(coords: seq<Point>, i: nat, ascentScale: real, descentScale: real)
    requires i < |coords|
    ensures ScaledTrack(coords, i, ascentScale, descentScale, Track(coords, i, ascentScale, descentScale))
  {
    if i <= Apex(coords) {
      TrackFromCursor(coords, i, ascentScale, descentScale);
      AscentFromCursor(coords, i, ascentScale, descentScale);
      DescentFromApex(coords, i, ascentScale, descentScale);
    } else {
      TrackPastApex(coords, i, ascentScale, descentScale);
    }
  }

  /**
   * The track `prediction` returns is drawn with the ratios `Scales` gives
   * for the observed speed: the ascent ratio up to the apex and the descent
   * ratio after it.
   */
  lemma PredictionScales(p: Profile, cursor: nat, altitude: real, climbing: bool, speed: Option<real>)
    requires |p.coords| > 0
    ensures var f := Prediction(p, cursor, altitude, climbing, speed);
            f.track.Some? ==>
              var s := Scales(p, climbing, speed).value;
              ScaledTrack(p.coords, f.cursor, s.0, s.1, f.track.value)
  {
    var f := Prediction(p, cursor, altitude, climbing, speed);
    if f.track.Some? {
      var s := Scales(p, climbing, speed).value;
      assert f.track.value == Track(p.coords, f.cursor, s.0, s.1);
      TrackIsScaled(p.coords, f.cursor, s.0, s.1);
    }
  }
}
