/**
 * The receiver's state across frames in kikyu-111.rb's main loop: no balloon
 * until the first accepted frame, which seeds one from the pre-flight
 * profile; afterwards every accepted frame steps it. Also the call that
 * turns the profile into a track anchored at the balloon.
 */
module Session {
  import opened Numeric
  import opened Wrappers
  import AltitudeCodec
  import opened Reconcile
  import opened Tracker
  import opened Packet
  import opened Trajectory

  /** The balloon, once there is one, and the profile matcher's cursor. */
  datatype Receiver = Receiver(balloon: Option<Balloon>, cursor: nat)

  /** The receiver before any frame: no balloon, the cursor at the first waypoint. */
  const Initial: Receiver := Receiver(None, 0)

  /**
   * `direction(lnd_lng, lnd_lat, lng, lat)`: azimuth and distance from the
   * second position to the first. Its trigonometry is not modelled; the
   * caller supplies it.
   */
  type Direction = (real, real, real, real) -> LandingFix

  /**
   * The seeding block: the launch waypoint is where a climbing search for
   * altitude 0 stops, the start waypoint where a climbing search for the
   * first frame's altitude then stops; the balloon starts at the start
   * waypoint, with the landing point guessed by mirroring the launch
   * through it.
   */
  function Seed(p: Profile, cursor: nat, code: Byte, direction: Direction): (r: (Balloon, nat))
    requires |p.coords| > 0
    ensures r.1 < |p.coords|
    ensures var launch := FindStart(p.coords, cursor, 0.0, true);
            r.1 == FindStart(p.coords, launch, AltitudeCodec.Decode(code), true)
    ensures r.0.altitude == AltitudeCodec.Decode(code) && r.0.maxAltitude == r.0.altitude
    ensures r.0.iAlt == code
    ensures r.0.iLng == ToFixed(p.coords[r.1].0) && r.0.iLat == ToFixed(p.coords[r.1].1)
    ensures var launch := p.coords[FindStart(p.coords, cursor, 0.0, true)];
            var start := p.coords[r.1];
            var landing := direction(start.0 * 2.0 - launch.0, start.1 * 2.0 - launch.1, start.0, start.1);
            && r.0.predTurn * 360.0 == landing.azimuth
            && r.0.predDist == RescaledDistance(landing.distance, p.plannedLandingSpeed)
            && r.0.iDist == DistanceCode(r.0.predDist, r.0.iAlt)
    ensures -1.0 < p.coords[r.1].0 * FixedPointScale - r.0.iLng as real < 1.0
    ensures -1.0 < p.coords[r.1].1 * FixedPointScale - r.0.iLat as real < 1.0
    ensures !r.0.falling && r.0.ascentRate == None && r.0.landingSpeed == p.plannedLandingSpeed
  {
    var altitude := AltitudeCodec.Decode(code);
    var launchAt := FindStart(p.coords, cursor, 0.0, true);
    var startAt := FindStart(p.coords, launchAt, altitude, true);
    var launch := p.coords[launchAt];
    var start := p.coords[startAt];
    var landing := direction(start.0 * 2.0 - launch.0, start.1 * 2.0 - launch.1, start.0, start.1);
    AltitudeCodec.EncodeDecode(code);
    var b := NewBalloon(start.0, start.1, altitude, altitude, landing, p.plannedLandingSpeed);
    assert b.iLng == ToFixed(start.0) && b.iLat == ToFixed(start.1);
    assert b.predTurn * 360.0 == landing.azimuth;
    (b, startAt)
  }

  /**
   * One frame through the main loop at second `sec`: a dropped frame changes
   * nothing; the first accepted frame seeds the balloon from the profile;
   * every accepted frame then updates it.
   */
  function Receive(rx: Receiver, p: Profile, frame: seq<Byte>, sec: int, direction: Direction): (r: Receiver)
    requires |p.coords| > 0
    ensures !Accepted(frame) ==> r == rx
    ensures Accepted(frame) ==>
              && r.balloon.Some?
              && r.balloon.value.iAlt == frame[0]
              && r.balloon.value.altitude == AltitudeCodec.Decode(frame[0])
    ensures rx.balloon.Some? ==>
              r.cursor == rx.cursor && r.balloon == Some(Step(rx.balloon.value, frame, sec))
    ensures rx.balloon.None? && Accepted(frame) ==>
              var seed := Seed(p, rx.cursor, frame[0], direction);
              r.cursor == seed.1 && r.balloon == Some(Step(seed.0, frame, sec))
    ensures rx.balloon.None? && Accepted(frame) ==>
              && r.cursor < |p.coords|
              && r.balloon.value.maxAltitude == r.balloon.value.altitude
              && var shift := ShiftFor(r.balloon.value.altitude);
                 && -(Span(shift) / 2) <= r.balloon.value.iLat - ToFixed(p.coords[r.cursor].1) <= Span(shift) / 2
                 && -(Span(shift) / 2) <= r.balloon.value.iLng - ToFixed(p.coords[r.cursor].0) <= Span(shift) / 2
  {
    if !Accepted(frame) then
      rx
    else
      match rx.balloon
      case Some(b) => Receiver(Some(Step(b, frame, sec)), rx.cursor)
      case None =>
        var (b, cursor) := Seed(p, rx.cursor, frame[0], direction);
        Receiver(Some(Step(b, frame, sec)), cursor)
  }

  /**
   * The seed waypoint is the first one from the launch waypoint that reaches
   * the first frame's altitude, climbing towards the apex, unless the
   * profile runs out first; at or above the apex's altitude the search looks
   * for the first waypoint not above it instead.
   */
  lemma SeedReachesAltitude(p: Profile, cursor: nat, code: Byte, direction: Direction)
    requires |p.coords| > 0
    ensures var alt := AltitudeCodec.Decode(code);
            var at := Seed(p, cursor, code, direction).1;
            at < |p.coords| - 1 ==>
              (alt < p.coords[Apex(p.coords)].2 ==> p.coords[at].2 >= alt) &&
              (alt >= p.coords[Apex(p.coords)].2 ==> p.coords[at].2 <= alt)
  {
    var alt := AltitudeCodec.Decode(code);
    var launch := FindStart(p.coords, cursor, 0.0, true);
    var at := Seed(p, cursor, code, direction).1;
    assert ScanFrom(p.coords, launch, true) == launch;
    if at < |p.coords| - 1 {
      assert !Continues(p.coords[at].2, alt, ScansUp(p.coords, alt, true));
    }
  }

  /**
   * The track shown for the balloon: `Habhub#prediction` at the balloon's
   * altitude, climbing unless it is falling, with the landing speed as the
   * observed speed when falling and the ascent rate (if any) otherwise; the
   * points are then moved to the balloon's position.
   */
  function BalloonTrack(p: Profile, cursor: nat, b: Balloon): (f: Forecast)
    requires |p.coords| > 0
    ensures f.cursor == FindStart(p.coords, cursor, b.altitude, !b.falling)
    ensures b.falling ==> f.cursor >= Apex(p.coords)
    ensures var speed := if b.falling then Some(b.landingSpeed) else b.ascentRate;
            f.track.Some? <==> Scales(p, !b.falling, speed).Some?
    ensures f.track.Some? ==>
              && |f.track.value| >= 1
              && (f.cursor <= Apex(p.coords) ==>
                    f.track.value[0] == (Longitude(b), Latitude(b), p.coords[f.cursor].2))
    ensures b.ascentRate.None? && !b.falling ==> f.track.Some?
    ensures var speed := if b.falling then Some(b.landingSpeed) else b.ascentRate;
            var fc := Prediction(p, cursor, b.altitude, !b.falling, speed);
            f.track.Some? ==>
              && fc.track.Some?
              && |f.track.value| == |fc.track.value|
              && forall k :: 0 <= k < |f.track.value| ==>
                   f.track.value[k] == (fc.track.value[k].0 + Longitude(b),
                                        fc.track.value[k].1 + Latitude(b),
                                        fc.track.value[k].2)
  {
    var speed := if b.falling then Some(b.landingSpeed) else b.ascentRate;
    var fc := Prediction(p, cursor, b.altitude, !b.falling, speed);
    MoveForecast(fc, Longitude(b), Latitude(b))
  }

  /** A forecast with every point of its track moved by `dlng` degrees of longitude and `dlat` of latitude. */
  function MoveForecast(fc: Forecast, dlng: real, dlat: real): (f: Forecast)
    ensures f.cursor == fc.cursor
    ensures f.track.Some? <==> fc.track.Some?
    ensures f.track.Some? ==>
              && |f.track.value| == |fc.track.value|
              && forall k :: 0 <= k < |f.track.value| ==>
                   f.track.value[k] == (fc.track.value[k].0 + dlng, fc.track.value[k].1 + dlat, fc.track.value[k].2)
  {
    match fc.track
    case None => fc
    case Some(t) =>
      Forecast(fc.cursor, Some(seq(|t|, k requires 0 <= k < |t| => (t[k].0 + dlng, t[k].1 + dlat, t[k].2))))
  }
}
