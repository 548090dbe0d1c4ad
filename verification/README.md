# Balloon telemetry codec and trajectory matcher, modelled in Dafny

This project models the numeric core of a radiosonde/balloon ground station.
The station is written in Ruby:

- `kikyu-111.rb` is the balloon tracker.
- `rstrack.rb` is its radiosonde variant.

The model is a set of immutable records and pure functions. Every operation
takes the state and returns the next one; nothing is mutated.

- **Altitude codec** (`AltitudeCodec`): the one-byte, three-band altitude code.
  - The encoder is in `Cordinate#initialize`; the decoder is `Cordinate.alt_decode`.
  - The bands are 62.5 m steps below 8 km, 125 m steps below 16 km, and 500 m steps up to 47.5 km.
- **Position reconciliation** (`Reconcile`, `Tracker`): `adjust` splices a 14-bit
  fragment into a fixed-point coordinate held in 1/65536 degree and undoes a wrap of
  the window.
  - `update` picks the fragment's shift (0, 2 or 5) from the decoded altitude.
  - `adjust_prefix` does the same unwrapping for the 8-bit distance prefix.
  - `update_pred` decodes the sixth byte, which rotates with the wall-clock second:
    slot 0 is phase and speed, slot 1 is bearing, slot 2 is distance.
- **Frames** (`Packet`, `Session`): the main loop's handling of one received frame.
  - A frame that is too short, or fails the nibble checksum, is dropped.
  - Otherwise the two 14-bit fragments are extracted from bytes 1-4, and the state
    is updated (and `update_pred` is applied when a sixth byte is present).
  - The first accepted frame seeds the balloon from the pre-flight profile.
- **`location_msg`** (`LocationMessage`): the fixed-width decimal/hex text of a
  position, packed two characters per byte as `pack("H*")` does.
- **Trajectory matcher** (`Trajectory`): `Habhub#find_start`, a cursor that follows
  the balloon's altitude along the planned profile, and `Habhub#prediction`.
  - `prediction` builds the track relative to that cursor, rescaling the active
    phase by the observed speed.
  - The two files hold identical copies; it is modelled once and cited from `rstrack.rb`.
- **Helpers of `rstrack.rb`** (`Sonde`):
  - `Vertical`, the vertical-speed state.
  - `parse`, the receiver-line reader.
  - `dist_string`, the spoken-distance unit and rounding.
  - The 16-point compass index and the clock position.
  - The last two are also at kikyu-111.rb:557-561.

Conventions:

- **Integers** are unbounded, as in Ruby. For power-of-two masks, the bit
  operations are Euclidean `/` and `%`:
  - `x & -m` is `x - x % m`;
  - `x & (m-1)` is `x % m`;
  - an OR of disjoint bits is a sum.
  - `^` on bytes is `Numeric.BitXor`, defined one binary digit at a time on
    naturals. `>> 4` and `& 0x0f` on a byte are `/ 16` and `% 16`.
- **Floats** are exact reals. `0.016`, `0.008` and `0.002` are the exact
  fractions 2/125, 1/125 and 1/500.
  - `to_i` and `truncate` truncate toward zero (`Numeric.Trunc`).
  - `Float#round` rounds halves away from zero (`Numeric.Round`).
- **Bearing.** The tracker's predicted landing bearing is kept in turns (degrees / 360, or byte / 256).
  kikyu-111.rb keeps it in radians; dropping the common factor 2π keeps it exact.

Three behaviours of the code that a reader might not expect:

- **Scale direction.** `Trajectory.Scales` divides the planned rate by the
  observed one (rstrack.rb:118, 120).
  - `Trajectory.FasterClimbShortensTrack` shows the consequence: a climb 1.2 times
    faster than planned scales the ascent part of the track by 5/6 and leaves
    the descent unscaled.
- **Ties.** `adjust`'s comparisons are strict, so a move of exactly `-span/2`
  can come back as `+span/2`.
  - `Reconcile.AdjustRecovers` proves recovery on the open interval.
  - `Reconcile.AdjustKeepsNearSplice` and `Reconcile.AdjustPrefixKeepsNearPrefix` state that a splice exactly half a span (or range) away is kept.
  - `Reconcile.AdjustTieKeepsSplice` exhibits the tie that is not recovered.
- **Zero observed speed.** A reported speed of zero makes Ruby divide by zero
  (Infinity or NaN offsets). The model returns no track for it.

## Model

| member | source | states |
|---|---|---|
| AltitudeCodec.Decode | kikyu-111.rb:131-143 | decoded altitudes lie in [0, 47500] m; a code is below 0x80 exactly when its altitude is below 8 km, and below 0xC0 exactly when below 16 km |
| AltitudeCodec.Encode | kikyu-111.rb:109-116 | for 0 ≤ alt < 48000 the code is a byte and alt lies in [decode(code), decode(code) + band step) |
| AltitudeCodec.LowBandWithinStep | kikyu-111.rb:110-111 | below 8 km the truncated altitude × 0.016 is under 0x80 and the altitude is within one 62.5 m step above its decoding |
| AltitudeCodec.MiddleBandWithinStep | kikyu-111.rb:112-113 | from 8 to 16 km the offset is 6 bits, the tagged code is in 0x80..0xBF, and the altitude is within one 125 m step above its decoding |
| AltitudeCodec.HighBandWithinStep | kikyu-111.rb:114-115 | from 16 to 48 km the offset is 6 bits, the tagged code is in 0xC0..0xFF, and the altitude is within one 500 m step above its decoding |
| AltitudeCodec.UpperBandCode | kikyu-111.rb:113-115 | OR-ing the band tag 0x80 or 0xC0 with a 6-bit offset adds the offset |
| AltitudeCodec.EncodeDecode | kikyu-111.rb:109-143 | every byte is its own code: encoding the decoded altitude gives the byte back |
| AltitudeCodec.DecodeIncreasing | kikyu-111.rb:131-143 | a larger code always decodes to a strictly higher altitude |
| AltitudeCodec.BandEdges | kikyu-111.rb:109-116 | 8 km and 16 km encode to 0x80 and 0xC0; 48 km wraps back to 0xC0, the code of 16 km |
| Reconcile.SpanIsWindow | kikyu-111.rb:180 | the span `1 << (14 + shift)` is 2^14 windows of 2^shift and is even |
| Reconcile.SpliceWindow | kikyu-111.rb:147-148 | the splice keeps the bits below `shift` and above the window and puts the fragment's low 14 bits in the window |
| Reconcile.Adjust | kikyu-111.rb:146-160 | the result keeps `curr` mod 2^shift, carries the fragment in bits shift..13+shift, and is within half a span of `curr` |
| Reconcile.AdjustKeepsNearSplice | kikyu-111.rb:146-160 | a splice within half a span of `curr`, exactly half included, is returned unchanged (the comparisons are strict) |
| Reconcile.AdjustRecovers | kikyu-111.rb:146-160 | a coordinate agreeing with `curr` below `shift` and strictly within half a span of it is recovered exactly from its own fragment |
| Reconcile.AdjustTieKeepsSplice | kikyu-111.rb:149-157 | the tie is not corrected: from 0, the coordinate −8192 sends fragment 8192 and reads back as +8192 |
| Reconcile.AdjustPrefix | kikyu-111.rb:192-202 | the result has the low `bits` bits of `new`, is within half a range of `prev`, and is `prev` itself when their low bits agree |
| Reconcile.AdjustPrefixKeepsNearPrefix | kikyu-111.rb:192-202 | when the low parts differ by at most half a range, exactly half included, the prefix of `prev` is kept (the comparisons are strict) |
| Reconcile.AdjustPrefixRecovers | kikyu-111.rb:192-202 | a value strictly within half a range of `prev` is recovered from its low `bits` bits |
| Tracker.ToFixed | kikyu-111.rb:117-118 | the fixed-point coordinate is degrees × 2^16 truncated toward zero: at most one unit below it for non-negative degrees, at most one unit above it for negative ones |
| Tracker.Latitude | kikyu-111.rb:185-187 | the latitude in degrees, scaled by 2^16, is the fixed-point latitude |
| Tracker.Longitude | kikyu-111.rb:188-190 | the longitude in degrees, scaled by 2^16, is the fixed-point longitude |
| Tracker.DistanceCodeWithinStep | kikyu-111.rb:127 | reading a distance code back gives the distance to within half a code step `max(ialt,16)/0.16` |
| Tracker.RescaledDistance | kikyu-111.rb:126 | the rescaled distance times the reference speed 4.5 is the distance times the landing speed |
| Tracker.NewBalloon | kikyu-111.rb:103-128 | the new state's altitude, running maximum, code within one band step, position as `ToFixed` of each coordinate, not falling, no ascent rate, bearing, rescaled distance and its distance code |
| Tracker.ShiftForCode | kikyu-111.rb:171-178 | the shift is 0 for codes below 32 (under 2 km), 2 below 64 (under 4 km), 5 otherwise |
| Tracker.Update | kikyu-111.rb:162-184 | altitude is the decoded code, the maximum never decreases and is old or new, both coordinates are adjusted with the altitude's shift, and the rotating fields are untouched |
| Tracker.UpdateTracksPosition | kikyu-111.rb:162-184 | a position that moved by less than half a span and kept its bits below the shift is tracked exactly |
| Tracker.SlotSchedule | kikyu-111.rb:204 | within a minute slot 1 is seconds 7-16 and 37-46, slot 2 is 17-26 and 47-56, slot 0 the rest; the pattern repeats every 30 s |
| Tracker.UpdatePred | kikyu-111.rb:203-225 | position and altitude are never touched; each slot changes only its own fields: slot 1 the bearing (byte/256 turn), slot 0 the phase bit and one speed (k/10 m/s; ascent rate only above 2 km), slot 2 a non-negative distance code with the byte as its low 8 bits and the distance it stands for |
| Tracker.DistanceCodeRecovered | kikyu-111.rb:220-222 | a non-negative distance code within 127 of the stored one is received exactly from its low byte |
| Numeric.BitXorZeroIff | kikyu-111.rb:353 | `a ^ b` is zero exactly when `a` and `b` are equal, the fact the nibble test rests on |
| Numeric.BitXorHighNibble | kikyu-111.rb:353 | the high nibble of `a ^ b` is the XOR of the two high nibbles |
| Numeric.BitXorLow | kikyu-111.rb:353 | the bits of `a ^ b` below any position are the XOR of the two operands' bits below it |
| Packet.NibblesAgreeMeaning | kikyu-111.rb:353 | a byte passes the nibble test exactly when its high and low nibbles are equal |
| Packet.ChecksumMeaning | kikyu-111.rb:351-354 | the frame passes exactly when the XOR of its bytes has equal high and low nibbles |
| Packet.XorFoldAppend | kikyu-111.rb:352 | folding a frame split in two XORs the folds of the parts |
| Packet.XorFoldReplace | kikyu-111.rb:352 | replacing one byte changes the XOR fold by the XOR of the old and new byte |
| Packet.CorruptionDetected | kikyu-111.rb:351-354 | after changing one byte of a passing frame, it still passes exactly when old XOR new has equal nibbles, so single-bit and single-nibble errors are caught |
| Packet.Lat14 | kikyu-111.rb:498-499 | the latitude fragment is below 2^14 and its bits 13..6, 5..2 and 1..0 are byte 1, the high nibble of byte 3 and the top two bits of byte 4 |
| Packet.Lng14 | kikyu-111.rb:500-501 | the longitude fragment is below 2^14 and its bits 13..6, 5..2 and 1..0 are byte 2, the low nibble of byte 3 and bits 5..4 of byte 4 |
| Packet.ExtractFragments | kikyu-111.rb:497-501 | extraction inverts the transmitter's layout of two 14-bit fragments in bytes 1-4 |
| Packet.ExtractionReadsAllBits | kikyu-111.rb:497-501 | the extracted fragments are below 2^14, bytes 1 and 2 are their top 8 bits, and laying them out again reproduces bytes 1-4 except the unused low nibble of byte 4 |
| Packet.Step | kikyu-111.rb:484-526 | a short or failing frame leaves the state unchanged; otherwise the altitude is the frame's, both fragments land in their windows within half a span, update then update_pred (when a sixth byte exists) are applied, and the maximum altitude never decreases |
| LocationMessage.Numeral | kikyu-111.rb:342-343 | `%d` of a non-negative number is all digits, reads back as the number, and has no leading zero |
| LocationMessage.FormatInt | kikyu-111.rb:342-343 | `%0Nd` of 0 ≤ n < 10^N is exactly N digits reading back as n; a negative n is a minus sign and the digits of −n, padded so the whole is N characters unless the digits need more |
| LocationMessage.NibbleOfHexDigit | kikyu-111.rb:342-348 | the nibble `pack("H*")` takes from a `%02X` digit is that digit's value |
| LocationMessage.PackHex | kikyu-111.rb:348 | `pack("H*")` gives ⌈len/2⌉ bytes, byte k made of the nibbles of characters 2k and 2k+1, an odd last character filling a high nibble |
| LocationMessage.PackHexText | kikyu-111.rb:342-348 | packing the upper-case hex text of bytes gives the bytes back |
| LocationMessage.PackedDigits | kikyu-111.rb:347-348 | two decimal digits pack into their binary-coded-decimal byte |
| LocationMessage.MinutesRange | kikyu-111.rb:338-340 | the minutes field of a non-negative coordinate is in 0..599999 |
| LocationMessage.LocationText | kikyu-111.rb:337-343 | within 0 ≤ lat < 100, 0 ≤ lng < 10000, 0 ≤ height < 10^6 the text is 28 characters: `4E`, latitude degrees and minutes, `45`, longitude degrees and minutes, height, each field all digits and reading back as its number |
| LocationMessage.LocationMsg | kikyu-111.rb:335-349 | the message is ⌈(id+time+type+location)/2⌉ bytes, byte k holding the hex digits at 2k and 2k+1 of that text (a lone last digit as the high nibble); with a 4-character id, 14-digit time and 2-character type it is 24 bytes, with 0x4E and 0x45 at bytes 10 and 15 and the latitude degrees as BCD at byte 11 |
| LocationMessage.LocationMsgParts | kikyu-111.rb:347-349 | with an id, time stamp and type of whole bytes, the message is the packed id, then the packed time stamp, then the packed type, then the packed location text |
| Trajectory.Apex | rstrack.rb:95 | the apex is the first index of a highest waypoint |
| Trajectory.Scan | rstrack.rb:104-106 | the scan passes exactly the waypoints that satisfy the loop condition and stops at the first that does not, or at the end |
| Trajectory.FindStart | rstrack.rb:100-111 | the cursor stays within the profile, never goes back unless clamped to the last waypoint, is at or after the apex when not climbing, and stops at the first waypoint that ends the scan |
| Trajectory.FindStartIdempotent | rstrack.rb:100-111 | calling `find_start` again with the same altitude and phase leaves the cursor where it is |
| Trajectory.Scales | rstrack.rb:115-121 | without a speed both scales are 1; otherwise only the active phase's scale changes, and scale × speed is the planned rate; a zero speed gives no track |
| Trajectory.FasterClimbShortensTrack | rstrack.rb:117-118 | climbing at 6 m/s against a planned 5 m/s scales the ascent by 5/6 and leaves the descent at 1 |
| Trajectory.AscentPart | rstrack.rb:124-125 | one point per waypoint from the cursor to the apex, none past it, each the scaled offset from the cursor's waypoint |
| Trajectory.DescentPart | rstrack.rb:127-130 | one point per waypoint after the later of apex and cursor, each the scaled offset from that waypoint plus the given offset |
| Trajectory.Track | rstrack.rb:124-131 | the track is never empty |
| Trajectory.TrackFromCursor | rstrack.rb:124-131 | up to the apex the track has one point per remaining waypoint, starts at (0, 0, start altitude) and copies every altitude |
| Trajectory.AscentFromCursor | rstrack.rb:124-125 | each point up to the apex is its waypoint's ascent-scaled offset from the cursor's waypoint |
| Trajectory.DescentFromApex | rstrack.rb:126-130 | each point after the apex is the apex point plus the descent-scaled offset from the apex waypoint |
| Trajectory.TrackPastApex | rstrack.rb:124-131 | past the apex the track is the rest of the profile relative to the cursor's waypoint, or the single default point at the last waypoint |
| Trajectory.UnscaledTrackIsOffset | rstrack.rb:124-130 | with both scales 1 every point is its waypoint minus the cursor's waypoint |
| Trajectory.Prediction | rstrack.rb:113-132 | the cursor moves by `find_start`; the track exists exactly when the scales do, is never empty, and from a cursor at or before the apex has one point per remaining waypoint starting at (0, 0, start altitude) |
| Trajectory.PredictionScales | rstrack.rb:113-132 | the returned track is drawn with `Scales`' ratios: the ascent ratio for the offsets from the cursor up to the apex, the descent ratio for the offsets after it (continued from the apex point), and only the descent ratio past the apex |
| Session.Seed | kikyu-111.rb:503-508 | the seed cursor comes from the two climbing searches (altitude 0, then the frame's altitude); the balloon is at that waypoint (`ToFixed` of its coordinates), at the frame's altitude and code, not falling, with the profile's landing speed; its bearing, rescaled distance and distance code come from `direction` applied to the launch mirrored through the start waypoint |
| Session.SeedReachesAltitude | kikyu-111.rb:503-508 | unless the profile runs out, the seed waypoint is at or above the frame's altitude when that is below the apex, and at or below it otherwise |
| Session.Receive | kikyu-111.rb:484-526 | a dropped frame changes nothing; an accepted frame leaves a balloon at the frame's altitude; an existing balloon is stepped; the first accepted frame seeds the balloon and cursor from `Seed`'s two searches, steps that balloon, and leaves it within half a span of the seed waypoint |
| Session.BalloonTrack | kikyu-111.rb:597-600 | the track's cursor comes from `find_start` in the balloon's phase; it exists exactly when the scales do (always without an ascent rate while climbing); it has as many points as `prediction`'s track, each moved by the balloon's longitude and latitude with its altitude kept, so up to the apex it starts at the balloon's position |
| Session.MoveForecast | kikyu-111.rb:600 | moving a forecast keeps its cursor, its length and each altitude, and adds the offset to every point |
| Sonde.VerticalUpdate | rstrack.rb:156-165 | the returned change added to the stored altitude is the new altitude, which becomes the stored one |
| Sonde.FeedTelescopes | rstrack.rb:156-165 | the changes returned for a run of altitudes sum to the last minus the initial altitude |
| Sonde.FirstIndexOf | rstrack.rb:170-176 | finds the first occurrence of a key from a position on, or reports that there is none |
| Sonde.AfterFirst | rstrack.rb:171-176 | `partition(key)[2]` is the text after the key's first occurrence, or empty when the key is absent |
| Sonde.Parse | rstrack.rb:167-181 | a fix is read exactly when the line contains `[00000]` or `(ok)[OK]`, and each field is the conversion of the text after its key |
| Sonde.MissingKeyReadsEmpty | rstrack.rb:171-176 | a field whose key is missing is the conversion of the empty text |
| Sonde.RoundToTens | rstrack.rb:186 | an integer is rounded to a multiple of ten within 5 of it, halves away from zero |
| Sonde.RoundTensExact | rstrack.rb:186 | truncating the float first loses nothing: for d ≥ 0 it is d rounded to tens directly |
| Sonde.DistString | rstrack.rb:183-188 | the first threshold reached picks the unit: whole km from 100 km, tenths of km from 10 km, metres to ten from 1 km, metres otherwise; for non-negative distances the rounding takes halves up |
| Sonde.CompassIndex | rstrack.rb:278 | the index is in 0..15 and, for an azimuth in [0, 360), names the 22.5° sector around it |
| Sonde.ClockPosition | rstrack.rb:280-282 | the position is the bearing difference / 30 moved by at most one 12-hour turn, inside [0, 12) when the difference is in [−360, 720) |
| Sonde.ClockPositionOnDial | rstrack.rb:280-282 | for azimuth and heading within one turn the clock position is in [0, 12) |

## Left out

- Device I/O: serial-port discovery, antenna polling, and the comma/RSSI framing of received lines. Frames enter the model already stripped.
- UDP setup and sending, and all file reads and writes: track, log and prediction files, resuming from the log, KML templates, and `VoiceOver`.
- The KML profile parser of `Habhub#initialize`. The profile is an input sequence with the two planned rates.
- Time. The wall-clock second is the parameter `sec`. The time stamp of `location_msg` is the parameter `time`. The time kept by `update` is not modelled.
- Transcendental maths, taken as inputs instead:
  - `direction` (atan2, cos, sqrt) is a function parameter of `Session.Seed`.
  - `pred_lat`, `pred_lng`, their helper `scaled_dist` (kikyu-111.rb:227-229), `time_to_land` and the exponential landing speed of `rstrack.rb` are not modelled.
- The constructor's `@i_dir`. It is never read.
- `String#to_f` in `parse` is a function parameter, because its grammar is not part of the core.
- IEEE float rounding. Exact reals can differ from Ruby by one code exactly at band and step boundaries such as `alt * 0.016`.
- `dist_string`'s `%.1f` rendering of tenths of a kilometre. `Sonde.DistString` returns the exact kilometres that are printed.
- Characters in `location_msg` are taken as single bytes. `pack("H*")` on multi-byte characters is not modelled.
- `Packet.XorFold` of an empty frame is 0, where Ruby's `inject` would give `nil`. The checksum is only ever applied to five bytes.
- Command-line flags, console output and the 10-second loop of `rstrack.rb`.
- Trajectory.Prediction: a zero reported speed gives no track, where Ruby would produce infinite or NaN offsets.
