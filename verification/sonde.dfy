/**
 * The small pure helpers of rstrack.rb, the radiosonde variant of the
 * tracker: the vertical-speed fallback `Vertical`, the receiver-line parser
 * `parse`, the spoken-distance choice `dist_string`, and the compass index
 * and clock position of the bearing to the sonde (the last two are the same
 * in kikyu-111.rb).
 */
module Sonde {
  import opened Numeric
  import opened Wrappers

  /** `Vertical`: remembers the last altitude it was given. */
  datatype Vertical = Vertical(prevAlt: real)

  /** `Vertical#update(new_alt)`: the change since the stored altitude; the new altitude is stored. */
  function VerticalUpdate(v: Vertical, newAlt: real): (r: (real, Vertical))
    ensures v.prevAlt + r.0 == newAlt
    ensures r.1.prevAlt == newAlt
  {
    (newAlt - v.prevAlt, Vertical(newAlt))
  }

  /** Feeding altitudes one after another: the differences returned, and the final state. */
  function Feed(v: Vertical, alts: seq<real>): (r: (seq<real>, Vertical))
    ensures |r.0| == |alts|
    decreases |alts|
  {
    if |alts| == 0 then ([], v)
    else
      var (d, v1) := VerticalUpdate(v, alts[0]);
      var (ds, v2) := Feed(v1, alts[1..]);
      ([d] + ds, v2)
  }

  function Sum(xs: seq<real>): real
  {
    if |xs| == 0 then 0.0 else xs[0] + Sum(xs[1..])
  }

  /**
   * The differences telescope: their sum is the last altitude minus the one
   * the state started with, and the state ends holding the last altitude.
   */
  lemma {:induction false} FeedTelescopes(v: Vertical, alts: seq<real>)
    requires |alts| > 0
    ensures Sum(Feed(v, alts).0) == alts[|alts| - 1] - v.prevAlt
    ensures Feed(v, alts).1.prevAlt == alts[|alts| - 1]
    decreases |alts|
  {
    if |alts| > 1 {
      FeedTelescopes(Vertical(alts[0]), alts[1..]);
    }
  }

  /** Whether `key` occurs in `line` starting at position `i`. */
  predicate OccursAt(line: string, key: string, i: nat)
  {
    i + |key| <= |line| && line[i..i + |key|] == key
  }

  predicate Occurs(line: string, key: string)
  {
    exists i: nat :: i <= |line| && OccursAt(line, key, i)
  }

  /** The first position from `from` on where `key` occurs, if any. */
  function FirstIndexOf(line: string, key: string, from: nat): (r: Option<nat>)
    ensures r.Some? ==> from <= r.value && OccursAt(line, key, r.value)
    ensures r.Some? ==> forall j: nat :: from <= j < r.value ==> !OccursAt(line, key, j)
    ensures r.None? ==> forall j: nat :: from <= j ==> !OccursAt(line, key, j)
    decreases |line| - from
  {
    if from + |key| > |line| then None
    else if line[from..from + |key|] == key then Some(from)
    else FirstIndexOf(line, key, from + 1)
  }

  lemma FirstIndexOfFinds(line: string, key: string)
    ensures FirstIndexOf(line, key, 0).Some? <==> Occurs(line, key)
  {
    var r := FirstIndexOf(line, key, 0);
    if r.Some? {
      assert OccursAt(line, key, r.value);
    }
  }

  /**
   * `line.partition(key)[2]`: the text after the first occurrence of `key`,
   * or the empty text when it does not occur.
   */
  function AfterFirst(line: string, key: string): (r: string)
    ensures !Occurs(line, key) ==> r == ""
    ensures Occurs(line, key) ==>
              exists i: nat :: i <= |line| && OccursAt(line, key, i) && r == line[i + |key|..]
                               && forall j: nat :: j < i ==> !OccursAt(line, key, j)
  {
    FirstIndexOfFinds(line, key);
    match FirstIndexOf(line, key, 0)
    case None => ""
    case Some(i) => line[i + |key|..]
  }

  /** The six numbers `parse` reads from an accepted line. */
  datatype Fix = Fix(lat: real, lon: real, alt: real, hv: real, dir: real, vv: real)

  /** The receivers' lines that carry a fix: RS41 (`[00000]`) and iMS-100 (`(ok)[OK]`). */
  predicate CarriesFix(line: string)
  {
    Occurs(line, "[00000]") || Occurs(line, "(ok)[OK]")
  }

  /**
   * `parse(line)`, with Ruby's `String#to_f` given as `toF`: no fix unless
   * the line is of a kind that carries one; otherwise each field is the
   * number read from the text after its key.
   */
  function Parse(line: string, toF: string -> real): (r: Option<Fix>)
    ensures r.Some? <==> CarriesFix(line)
    ensures r.Some? ==>
              && r.value.lat == toF(AfterFirst(line, "lat:"))
              && r.value.lon == toF(AfterFirst(line, "lon:"))
              && r.value.alt == toF(AfterFirst(line, "alt:"))
              && r.value.hv == toF(AfterFirst(line, "vH:"))
              && r.value.dir == toF(AfterFirst(line, "D:"))
              && r.value.vv == toF(AfterFirst(line, "vV:"))
  {
    if FirstIndexOf(line, "[00000]", 0).Some? || FirstIndexOf(line, "(ok)[OK]", 0).Some? then
      FirstIndexOfFinds(line, "[00000]");
      FirstIndexOfFinds(line, "(ok)[OK]");
      Some(Fix(toF(AfterFirst(line, "lat:")), toF(AfterFirst(line, "lon:")), toF(AfterFirst(line, "alt:")),
               toF(AfterFirst(line, "vH:")), toF(AfterFirst(line, "D:")), toF(AfterFirst(line, "vV:"))))
    else
      FirstIndexOfFinds(line, "[00000]");
      FirstIndexOfFinds(line, "(ok)[OK]");
      None
  }

  /** A field whose key is missing reads as the conversion of the empty text. */
  lemma MissingKeyReadsEmpty(line: string, toF: string -> real)
    requires CarriesFix(line) && !Occurs(line, "alt:")
    ensures Parse(line, toF).value.alt == toF("")
  {
  }

  /** How `dist_string` speaks a distance in metres. */
  datatype Spoken =
    | Kilometres(km: int)       // "%dキロメートル", whole kilometres
    | TenthKilometres(kilometres: real) // "%.1fキロメートル"; the one-decimal rendering is not modelled
    | Metres(m: int)            // "%dメートル"

  /**
   * `Integer#round(-1)` on an integer: to the nearest multiple of ten,
   * halves away from zero.
   */
  function RoundToTens(n: int): (r: int)
    ensures r % 10 == 0
    ensures -5 <= r - n <= 5
    ensures r - n == 5 ==> n >= 0
    ensures r - n == -5 ==> n < 0
  {
    if n >= 0 then ((n + 5) / 10) * 10 else -(((-n + 5) / 10) * 10)
  }

  /**
   * `Float#round(-1)`: Ruby truncates the float to an integer first and
   * then rounds that to tens.
   */
  function RoundTens(d: real): int
  {
    RoundToTens(Trunc(d))
  }

  /** Truncating first loses nothing: the result is `d` rounded to tens directly. */
  lemma RoundTensExact(d: real)
    requires d >= 0.0
    ensures RoundTens(d) == Round(d / 10.0) * 10
  {
    var t := Trunc(d);
    var q := (t + 5) / 10;
    assert RoundTens(d) == q * 10;
    assert q * 10 <= t + 5 < q * 10 + 10;
    assert t as real <= d < t as real + 1.0;
    assert q as real <= d / 10.0 + 0.5 < q as real + 1.0;
  }

  /** `dist_string(d)`: the first threshold that `d` reaches picks the unit and rounding. */
  function DistString(d: real): (s: Spoken)
    ensures d >= 100000.0 ==> s.Kilometres? && -500.0 < s.km as real * 1000.0 - d <= 500.0
    ensures 10000.0 <= d < 100000.0 ==> s.TenthKilometres? && s.kilometres * 1000.0 == d
    ensures 1000.0 <= d < 10000.0 ==> s.Metres? && s.m % 10 == 0 && -5.0 < s.m as real - d <= 5.0
    ensures d < 1000.0 ==> s.Metres? && -0.5 <= s.m as real - d <= 0.5
    ensures 0.0 <= d < 1000.0 ==> -0.5 < s.m as real - d <= 0.5
  {
    if d >= 100000.0 then Kilometres(Round(d / 1000.0))
    else if d >= 10000.0 then TenthKilometres(d / 1000.0)
    else if d >= 1000.0 then
      RoundTensExact(d);
      Metres(RoundTens(d))
    else Metres(Round(d))
  }

  /**
   * The 16-point compass sector of an azimuth in degrees: the azimuth in
   * sectors of 22.5 degrees, plus one half, truncated, and taken modulo 16.
   */
  function CompassIndex(azim: real): (i: int)
    ensures 0 <= i < 16
    ensures 0.0 <= azim < 360.0 ==>
              (i as real * 22.5 - 11.25 <= azim < i as real * 22.5 + 11.25) ||
              (i == 0 && 348.75 <= azim)
  {
    var t := Trunc(azim / 22.5 + 0.5);
    SectorOf(azim);
    t % 16
  }

  lemma SectorOf(azim: real)
    ensures var t := Trunc(azim / 22.5 + 0.5);
            0.0 <= azim < 360.0 ==>
              && 0 <= t <= 16
              && t as real * 22.5 - 11.25 <= azim < t as real * 22.5 + 11.25
              && t % 16 == (if t == 16 then 0 else t)
  {
    var t := Trunc(azim / 22.5 + 0.5);
    if 0.0 <= azim < 360.0 {
      assert t as real <= azim / 22.5 + 0.5 < t as real + 1.0;
      if t == 16 {
        DivModUnique(t, 16, 1, 0);
      } else {
        DivModUnique(t, 16, 0, t);
      }
    }
  }

  /**
   * The clock position of the balloon as seen by a retriever heading
   * `heading`: the angle from the heading to the balloon's azimuth at thirty
   * degrees an hour, brought into [0, 12) by one step of twelve hours either
   * way.
   */
  function ClockPosition(azim: real, heading: real): (c: real)
    ensures var h := (azim - heading) / 30.0;
            c == h || c == h + 12.0 || c == h - 12.0
    ensures -360.0 <= azim - heading < 720.0 ==> 0.0 <= c < 12.0
  {
    var c0 := (azim - heading) / 30.0;
    var c1 := if c0 < 0.0 then c0 + 12.0 else c0;
    if c1 >= 12.0 then c1 - 12.0 else c1
  }

  /** For an azimuth and a heading both within a turn, the clock position is a reading of the dial. */
  lemma ClockPositionOnDial(azim: real, heading: real)
    requires 0.0 <= azim < 360.0 && 0.0 <= heading <= 360.0
    ensures 0.0 <= ClockPosition(azim, heading) < 12.0
  {
  }
}
