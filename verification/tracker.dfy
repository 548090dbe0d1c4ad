/**
 * The balloon state of kikyu-111.rb's `Cordinate`: its constructor, the
 * per-packet position/altitude `update`, and the rotating sixth-byte
 * decoder `update_pred`.
 *
 * The state is an immutable record; every operation returns the next one.
 * The wall clock is a parameter (`sec`, the current second of the minute).
 */
module Tracker {
  import opened Numeric
  import opened Wrappers
  import AltitudeCodec
  import opened Reconcile

  /** 2^16: coordinates are held as integers in 1/65536 degree. */
  const FixedPointScale: real := 65536.0
  /** `Std_Lnd_Spd`, the reference landing speed in m/s. */
  const StdLandingSpeed: real := 4.5
  /** Below this altitude (m) a reported climb rate is not trusted. */
  const AscentRateFloor: real := 2000.0

  datatype Balloon = Balloon(
    iLat: int,                // latitude  * 2^16, reconciled fragment by fragment
    iLng: int,                // longitude * 2^16
    iAlt: int,                // the last altitude code
    altitude: real,           // metres
    maxAltitude: real,        // running maximum of `altitude`
    falling: bool,
    landingSpeed: real,       // m/s; the reference speed until slot 0 reports a descent
    ascentRate: Option<real>, // m/s; `nil` until slot 0 reports a climb above 2 km
    predTurn: real,           // predicted landing bearing, in turns clockwise from north
    predDist: real,           // predicted landing distance, metres
    iDist: int                // the distance code slot 2 reconciles
  )

  /**
   * What `direction(lnd_lng, lnd_lat, lng, lat)` yields for the constructor:
   * the azimuth (degrees) and horizontal distance (m) from the balloon to the
   * landing point the caller supplies.
   */
  datatype LandingFix = LandingFix(azimuth: real, distance: real)

  /** The distance code's resolution divisor: the altitude code, but at least 16. */
  function DistanceDivisor(iAlt: int): (d: int)
    ensures d >= 16 && d >= iAlt
  {
    Max(iAlt, 16)
  }

  /** A coordinate in degrees as a fixed-point integer: scaled by 2^16 and truncated toward zero. */
  function ToFixed(x: real): (i: int)
    ensures x >= 0.0 ==> 0.0 <= x * FixedPointScale - i as real < 1.0
    ensures x < 0.0 ==> -1.0 < x * FixedPointScale - i as real <= 0.0
  {
    Trunc(x * FixedPointScale)
  }

  /**
   * The distance code for a distance: the distance times 0.16, divided by the
   * altitude code but by at least 16, rounded to the nearest integer.
   */
  function DistanceCode(dist: real, iAlt: int): int
  {
    Round(dist * 0.16 / DistanceDivisor(iAlt) as real)
  }

  /** The distance in metres a distance code stands for: the code times the divisor, over 0.16. */
  function CodeToDistance(iDist: int, iAlt: int): real
  {
    iDist as real * DistanceDivisor(iAlt) as real / 0.16
  }

  /**
   * Encoding a distance and reading the code back gives the distance to
   * within half a code step.
   */
  lemma DistanceCodeWithinStep(dist: real, iAlt: int)
    ensures var step := DistanceDivisor(iAlt) as real / 0.16;
            -step / 2.0 <= CodeToDistance(DistanceCode(dist, iAlt), iAlt) - dist <= step / 2.0
  {
    var d := DistanceDivisor(iAlt) as real;
    var x := dist * 0.16 / d;
    var c := DistanceCode(dist, iAlt);
    var step := d / 0.16;
    var e := c as real - x;
    assert -0.5 <= e <= 0.5;
    QuotientTimesDivisor(dist * 0.16, d);
    assert CodeToDistance(c, iAlt) == (x + e) * d / 0.16;
    assert (x + e) * d == x * d + e * d;
    assert CodeToDistance(c, iAlt) - dist == e * d / 0.16;
    HalfStepBound(e, d);
  }

  lemma QuotientTimesDivisor(a: real, d: real)
    requires d > 0.0
    ensures a / d * d == a
  {
  }

  lemma HalfStepBound(e: real, d: real)
    requires -0.5 <= e <= 0.5 && d > 0.0
    ensures -(d / 0.16) / 2.0 <= e * d / 0.16 <= (d / 0.16) / 2.0
  {
    assert -0.5 * d <= e * d <= 0.5 * d;
  }

  /**
   * `Cordinate.new(lng, lat, alt, max_alt, lnd_lng, lnd_lat, lnd_speed)`,
   * with the `direction` call it makes given as `landing`.
   */
  function NewBalloon(lng: real, lat: real, alt: real, maxAlt: real,
                      landing: LandingFix, landingSpeed: real): (b: Balloon)
    ensures b.altitude == alt
    ensures b.maxAltitude >= maxAlt && b.maxAltitude >= alt
    ensures b.maxAltitude == maxAlt || b.maxAltitude == alt
    ensures 0.0 <= alt < 48000.0 ==>
              && 0 <= b.iAlt < 256
              && AltitudeCodec.Decode(b.iAlt) <= alt
              && alt < AltitudeCodec.Decode(b.iAlt) + AltitudeCodec.Step(b.iAlt)
    ensures b.iLat == ToFixed(lat) && b.iLng == ToFixed(lng)
    ensures -1.0 < lat * FixedPointScale - b.iLat as real < 1.0
    ensures -1.0 < lng * FixedPointScale - b.iLng as real < 1.0
    ensures !b.falling && b.ascentRate == None && b.landingSpeed == landingSpeed
    ensures b.predTurn * 360.0 == landing.azimuth
    ensures b.predDist * StdLandingSpeed == landing.distance * landingSpeed
    ensures b.predDist == RescaledDistance(landing.distance, landingSpeed)
    ensures b.iDist == DistanceCode(b.predDist, b.iAlt)
  {
    var iAlt := AltitudeCodec.Encode(alt);
    var predDist := RescaledDistance(landing.distance, landingSpeed);
    assert predDist * StdLandingSpeed == landing.distance * landingSpeed;
    Balloon(
      iLat := ToFixed(lat),
      iLng := ToFixed(lng),
      iAlt := iAlt,
      altitude := alt,
      maxAltitude := MaxReal(maxAlt, alt),
      falling := false,
      landingSpeed := landingSpeed,
      ascentRate := None,
      predTurn := landing.azimuth / 360.0,
      predDist := predDist,
      iDist := DistanceCode(predDist, iAlt))
  }

  /** A distance rescaled by `speed / Std_Lnd_Spd`: the distance times `speed`, per reference speed. */
  function RescaledDistance(distance: real, speed: real): (d: real)
    ensures d * StdLandingSpeed == distance * speed
  {
    var q := speed / StdLandingSpeed;
    assert q * StdLandingSpeed == speed;
    assert distance * q * StdLandingSpeed == distance * (q * StdLandingSpeed);
    distance * q
  }

  /** `Cordinate#latitude`, in degrees: the fixed-point latitude read back. */
  function Latitude(b: Balloon): (lat: real)
    ensures lat * FixedPointScale == b.iLat as real
  {
    b.iLat as real / FixedPointScale
  }

  /** `Cordinate#longitude`, in degrees: the fixed-point longitude read back. */
  function Longitude(b: Balloon): (lng: real)
    ensures lng * FixedPointScale == b.iLng as real
  {
    b.iLng as real / FixedPointScale
  }

  /** Horizontal resolution by altitude: the fragment's shift. */
  function ShiftFor(altitude: real): nat
  {
    if altitude < 2000.0 then 0 else if altitude < 4000.0 then 2 else 5
  }

  /** In terms of the altitude code: codes below 32 are under 2 km, below 64 under 4 km. */
  lemma ShiftForCode(code: Byte)
    ensures ShiftFor(AltitudeCodec.Decode(code)) == (if code < 32 then 0 else if code < 64 then 2 else 5)
  {
  }

  /**
   * `Cordinate#update(alt, lat_14, lng_14)`: decode the altitude code, raise the
   * running maximum, and reconcile both coordinates with the shift the new
   * altitude selects. The rotating-field state is not touched.
   */
  function Update(b: Balloon, code: Byte, lat14: int, lng14: int): (r: Balloon)
    ensures r.iAlt == code && r.altitude == AltitudeCodec.Decode(code)
    ensures r.maxAltitude >= b.maxAltitude && r.maxAltitude >= r.altitude
    ensures r.maxAltitude == b.maxAltitude || r.maxAltitude == r.altitude
    ensures var shift := ShiftFor(r.altitude);
            && r.iLat % Pow2(shift) == b.iLat % Pow2(shift)
            && (r.iLat / Pow2(shift)) % FragmentRange == lat14 % FragmentRange
            && -(Span(shift) / 2) <= r.iLat - b.iLat <= Span(shift) / 2
            && r.iLng % Pow2(shift) == b.iLng % Pow2(shift)
            && (r.iLng / Pow2(shift)) % FragmentRange == lng14 % FragmentRange
            && -(Span(shift) / 2) <= r.iLng - b.iLng <= Span(shift) / 2
    ensures r.falling == b.falling && r.landingSpeed == b.landingSpeed
    ensures r.ascentRate == b.ascentRate && r.predTurn == b.predTurn
    ensures r.predDist == b.predDist && r.iDist == b.iDist
  {
    var altitude := AltitudeCodec.Decode(code);
    var shift := ShiftFor(altitude);
    b.(iAlt := code,
       altitude := altitude,
       maxAltitude := MaxReal(b.maxAltitude, altitude),
       iLat := Adjust(b.iLat, lat14, shift),
       iLng := Adjust(b.iLng, lng14, shift))
  }

  /**
   * A coordinate that moved by less than half a span since the last packet,
   * and kept its bits below the shift, is tracked exactly.
   */
  lemma UpdateTracksPosition(b: Balloon, code: Byte, lat: int, lng: int)
    requires var shift := ShiftFor(AltitudeCodec.Decode(code));
             && lat % Pow2(shift) == b.iLat % Pow2(shift)
             && lng % Pow2(shift) == b.iLng % Pow2(shift)
             && -(Span(shift) / 2) < lat - b.iLat < Span(shift) / 2
             && -(Span(shift) / 2) < lng - b.iLng < Span(shift) / 2
    ensures var shift := ShiftFor(AltitudeCodec.Decode(code));
            var r := Update(b, code, Fragment(lat, shift), Fragment(lng, shift));
            r.iLat == lat && r.iLng == lng
  {
    var shift := ShiftFor(AltitudeCodec.Decode(code));
    AdjustRecovers(b.iLat, lat, shift);
    AdjustRecovers(b.iLng, lng, shift);
  }

  /**
   * The rotating field's slot for the current second: the number of the
   * ten-second window it falls in, windows starting three seconds before
   * each multiple of ten, taken modulo three.
   */
  function Slot(sec: int): (s: nat)
    ensures s < 3
  {
    ((sec + 3) / 10) % 3
  }

  /**
   * Within a minute the slots run in ten-second windows offset by three
   * seconds: rate/phase at 0-6, 27-36 and 57-59, direction at 7-16 and 37-46,
   * distance at 17-26 and 47-56; the pattern repeats every 30 seconds.
   */
  lemma SlotSchedule(sec: int)
    ensures 0 <= sec < 60 ==>
              && (Slot(sec) == 1 <==> 7 <= sec < 17 || 37 <= sec < 47)
              && (Slot(sec) == 2 <==> 17 <= sec < 27 || 47 <= sec < 57)
    ensures Slot(sec + 30) == Slot(sec)
  {
    assert (sec + 30 + 3) / 10 == (sec + 3) / 10 + 3;
  }

  /**
   * `Cordinate#update_pred(prediction)`: slot 1 is the landing bearing in
   * 1/256 turns; slot 0 is the phase bit and a speed in 0.1 m/s; slot 2 is
   * the low byte of the distance code.
   */
  function UpdatePred(b: Balloon, prediction: Byte, sec: int): (r: Balloon)
    // position and altitude are never touched
    ensures r.iLat == b.iLat && r.iLng == b.iLng && r.iAlt == b.iAlt
    ensures r.altitude == b.altitude && r.maxAltitude == b.maxAltitude
    // slot 1: only the bearing changes
    ensures Slot(sec) == 1 ==>
              && r == b.(predTurn := r.predTurn)
              && r.predTurn * 256.0 == prediction as real
              && 0.0 <= r.predTurn < 1.0
    // slot 0: phase and one speed
    ensures Slot(sec) == 0 ==>
              && r == b.(falling := r.falling, landingSpeed := r.landingSpeed, ascentRate := r.ascentRate)
              && (r.falling <==> prediction >= 0x80)
              && (r.falling ==> r.landingSpeed * 10.0 == (prediction - 0x80) as real && r.ascentRate == b.ascentRate)
              && (!r.falling ==> r.landingSpeed == b.landingSpeed)
              && (!r.falling && b.altitude > AscentRateFloor ==>
                    r.ascentRate.Some? && r.ascentRate.value * 10.0 == prediction as real)
              && (!r.falling && b.altitude <= AscentRateFloor ==> r.ascentRate == b.ascentRate)
    // slot 2: the distance code and the distance
    ensures Slot(sec) == 2 ==>
              && r == b.(iDist := r.iDist, predDist := r.predDist)
              && r.iDist >= 0
              && (r.iDist == 0 || (r.iDist % 256 == prediction && -128 <= r.iDist - b.iDist <= 128))
              && r.predDist == CodeToDistance(r.iDist, b.iAlt)
  {
    match Slot(sec)
    case 1 =>
      b.(predTurn := prediction as real / 256.0)
    case 0 =>
      var falling := prediction >= 0x80;
      var speed := (prediction % 0x80) as real / 10.0;
      if falling then
        b.(falling := true, landingSpeed := speed)
      else
        b.(falling := false,
           ascentRate := if b.altitude > AscentRateFloor then Some(speed) else b.ascentRate)
    case 2 =>
      Pow2Table();
      var iDist := Max(AdjustPrefix(b.iDist, prediction, 8), 0);
      b.(iDist := iDist, predDist := CodeToDistance(iDist, b.iAlt))
  }

  /**
   * A non-negative distance code within 127 of the stored one is received
   * exactly from its low byte.
   */
  lemma DistanceCodeRecovered(b: Balloon, t: int, sec: int)
    requires Slot(sec) == 2
    requires t >= 0 && -128 < t - b.iDist < 128
    ensures UpdatePred(b, t % 256, sec).iDist == t
  {
    Pow2Table();
    AdjustPrefixRecovers(b.iDist, t, 8);
  }
}
