/**
 * One received frame of kikyu-111.rb's main loop: length and checksum
 * acceptance, extraction of the two 14-bit coordinate fragments from bytes
 * 1-4, and the state step that feeds them to `Cordinate#update` and, when a
 * sixth byte is present, to `Cordinate#update_pred`.
 *
 * Frame layout (after any framing prefix has been stripped):
 *   [0] altitude code
 *   [1] lat_14 bits 13..6        [2] lng_14 bits 13..6
 *   [3] lat_14 bits 5..2 (high nibble), lng_14 bits 5..2 (low nibble)
 *   [4] lat_14 bits 1..0 (bits 7..6), lng_14 bits 1..0 (bits 5..4)
 *   [5] optional rotating prediction byte
 */
module Packet {
  import opened Numeric
  import AltitudeCodec
  import opened Reconcile
  import opened Tracker

  /** The bytes the checksum covers and the shortest frame accepted. */
  const CoreLength: nat := 5

  /** The checksum's fold: the bytes XOR-ed together from the left. */
  function XorFold(data: seq<Byte>): (cs: Byte)
  {
    if |data| == 0 then 0
    else
      var init, last := XorFold(data[..|data| - 1]), data[|data| - 1];
      Pow2Table();
      BitXorBound(init, last, 8);
      BitXor(init, last)
  }

  /** `checksum_nibble`: the XOR of all the bytes passes the nibble test. */
  predicate ChecksumNibble(data: seq<Byte>)
  {
    NibblesAgree(XorFold(data))
  }

  /** The nibble test: the high nibble of `b` XOR-ed with its low nibble is zero. */
  predicate NibblesAgree(b: Byte)
  {
    BitXor(b / 16, b % 16) == 0
  }

  /** A byte passes exactly when its two nibbles are equal. */
  lemma NibblesAgreeMeaning(b: Byte)
    ensures NibblesAgree(b) <==> b / 16 == b % 16
  {
    BitXorZeroIff(b / 16, b % 16);
  }

  lemma ChecksumMeaning(data: seq<Byte>)
    ensures ChecksumNibble(data) <==> XorFold(data) / 16 == XorFold(data) % 16
  {
    NibblesAgreeMeaning(XorFold(data));
  }

  /** Replacing one byte changes the fold by the XOR of the old and new byte. */
  lemma {:induction false} XorFoldReplace(data: seq<Byte>, i: nat, v: Byte)
    requires i < |data|
    ensures XorFold(data[i := v]) == BitXor(XorFold(data), BitXor(data[i], v))
    decreases |data|
  {
    var n := |data| - 1;
    var d' := data[i := v];
    var init, last := XorFold(data[..n]), data[n];
    if i < n {
      assert d'[..n] == data[..n][i := v];
      XorFoldReplace(data[..n], i, v);
      assert data[..n][i] == data[i];
      var e := BitXor(data[i], v);
      // (init ^ e) ^ last == (init ^ last) ^ e
      BitXorAssociates(init, e, last);
      BitXorCommutes(e, last);
      BitXorAssociates(init, last, e);
    } else {
      assert d'[..n] == data[..n];
      // init ^ v == (init ^ last) ^ (last ^ v)
      BitXorAssociates(init, last, BitXor(last, v));
      BitXorAssociates(last, last, v);
      BitXorSelf(last);
      BitXorZero(v);
    }
  }

  /**
   * Folding a frame split in two XORs the folds of the two parts, so with
   * `BitXorCommutes` the fold does not depend on where the frame is split or
   * which part comes first.
   */
  lemma {:induction false} XorFoldAppend(a: seq<Byte>, b: seq<Byte>)
    ensures XorFold(a + b) == BitXor(XorFold(a), XorFold(b))
    decreases |b|
  {
    if |b| == 0 {
      assert a + b == a;
      BitXorZero(XorFold(a));
    } else {
      var n := |b| - 1;
      assert (a + b)[..|a + b| - 1] == a + b[..n];
      XorFoldAppend(a, b[..n]);
      BitXorAssociates(XorFold(a), XorFold(b[..n]), b[n]);
    }
  }

  /**
   * Changing one byte of a frame that passed: the frame still passes exactly
   * when the XOR of the old and new byte has equal nibbles. In particular
   * every single-bit error, and every error confined to one nibble, is caught.
   */
  lemma CorruptionDetected(data: seq<Byte>, i: nat, v: Byte)
    requires i < |data|
    requires ChecksumNibble(data)
    ensures var e := BitXor(data[i], v);
            ChecksumNibble(data[i := v]) <==> e / 16 == e % 16
  {
    XorFoldReplace(data, i, v);
    var cs, e := XorFold(data), BitXor(data[i], v);
    NibblesAgreeMeaning(cs);
    NibblesAgreeMeaning(XorFold(data[i := v]));
    Pow2Table();
    BitXorHighNibble(cs, e);
    BitXorLow(cs, e, 4);
    BitXorCancel(cs / 16, e / 16, e % 16);
  }

  /** The frame is long enough and its first five bytes pass the checksum. */
  predicate Accepted(frame: seq<Byte>)
  {
    |frame| >= CoreLength && ChecksumNibble(frame[..CoreLength])
  }

  /**
   * The latitude fragment: byte 1 gives bits 13..6, the high nibble of
   * byte 3 bits 5..2, and the top two bits of byte 4 bits 1..0.
   */
  function Lat14(frame: seq<Byte>): (r: int)
    requires |frame| >= CoreLength
    ensures 0 <= r < FragmentRange
    ensures r / 64 == frame[1] && (r / 4) % 16 == frame[3] / 16 && r % 4 == frame[4] / 64
  {
    var r := (frame[1] as int) * 64 + (frame[3] / 16) * 4 + frame[4] / 64;
    FragmentFields(r, frame[1], frame[3] / 16, frame[4] / 64);
    r
  }

  /**
   * The longitude fragment: byte 2 gives bits 13..6, the low nibble of
   * byte 3 bits 5..2, and bits 5..4 of byte 4 bits 1..0.
   */
  function Lng14(frame: seq<Byte>): (r: int)
    requires |frame| >= CoreLength
    ensures 0 <= r < FragmentRange
    ensures r / 64 == frame[2] && (r / 4) % 16 == frame[3] % 16 && r % 4 == (frame[4] % 64) / 16
  {
    var r := (frame[2] as int) * 64 + (frame[3] % 16) * 4 + (frame[4] % 64) / 16;
    FragmentFields(r, frame[2], frame[3] % 16, (frame[4] % 64) / 16);
    r
  }

  /** A 14-bit value assembled from an 8-, a 4- and a 2-bit field has those fields. */
  lemma FragmentFields(r: int, top: int, mid: int, low: int)
    requires 0 <= top < 256 && 0 <= mid < 16 && 0 <= low < 4
    requires r == top * 64 + mid * 4 + low
    ensures 0 <= r < FragmentRange
    ensures r / 64 == top && (r / 4) % 16 == mid && r % 4 == low
  {
    DivModUnique(r, 64, top, mid * 4 + low);
    DivModUnique(r, 4, top * 16 + mid, low);
    DivModUnique(top * 16 + mid, 16, top, mid);
  }

  /** Bytes 1-4 as a transmitter lays out two 14-bit fragments (unused bits zero). */
  function FragmentBytes(lat14: int, lng14: int): (bytes: seq<Byte>)
    requires 0 <= lat14 < FragmentRange && 0 <= lng14 < FragmentRange
    ensures |bytes| == 4
  {
    [ lat14 / 64,
      lng14 / 64,
      ((lat14 / 4) % 16) * 16 + (lng14 / 4) % 16,
      (lat14 % 4) * 64 + (lng14 % 4) * 16 ]
  }

  /** Extraction inverts the layout: each fragment comes back whole. */
  lemma ExtractFragments(code: Byte, lat14: int, lng14: int, rest: seq<Byte>)
    requires 0 <= lat14 < FragmentRange && 0 <= lng14 < FragmentRange
    ensures var frame := [code] + FragmentBytes(lat14, lng14) + rest;
            Lat14(frame) == lat14 && Lng14(frame) == lng14
  {
    var frame := [code] + FragmentBytes(lat14, lng14) + rest;
    var bytes := FragmentBytes(lat14, lng14);
    assert frame[1] == bytes[0] && frame[2] == bytes[1] && frame[3] == bytes[2] && frame[4] == bytes[3];
    JoinHigh(lat14, frame[1], frame[3], frame[4], (lng14 / 4) % 16, lng14 % 4);
    JoinLow(lng14, frame[2], frame[3], frame[4], (lat14 / 4) % 16, lat14 % 4);
  }

  /** The fragment whose bits sit in the high parts of bytes 3 and 4 is read back whole. */
  lemma JoinHigh(x: int, b1: int, b3: int, b4: int, lo3: int, lo4: int)
    requires 0 <= x < FragmentRange && 0 <= lo3 < 16 && 0 <= lo4 < 4
    requires b1 == x / 64 && b3 == ((x / 4) % 16) * 16 + lo3 && b4 == (x % 4) * 64 + lo4 * 16
    ensures b1 * 64 + (b3 / 16) * 4 + b4 / 64 == x
  {
    DivModUnique(b3, 16, (x / 4) % 16, lo3);
    DivModUnique(b4, 64, x % 4, lo4 * 16);
    DivModUnique(x / 4, 16, x / 64, (x / 4) % 16);
  }

  /** The fragment whose bits sit in the low parts of bytes 3 and 4 is read back whole. */
  lemma JoinLow(y: int, b2: int, b3: int, b4: int, hi3: int, hi4: int)
    requires 0 <= y < FragmentRange && 0 <= hi3 < 16 && 0 <= hi4 < 4
    requires b2 == y / 64 && b3 == hi3 * 16 + (y / 4) % 16 && b4 == hi4 * 64 + (y % 4) * 16
    ensures b2 * 64 + (b3 % 16) * 4 + (b4 % 64) / 16 == y
  {
    DivModUnique(b3, 16, hi3, (y / 4) % 16);
    DivModUnique(b4, 64, hi4, (y % 4) * 16);
    DivModUnique((y % 4) * 16, 16, y % 4, 0);
    DivModUnique(y / 4, 16, y / 64, (y / 4) % 16);
  }

  /**
   * Extraction reads every bit of bytes 1-4 except the low nibble of byte 4:
   * laying the extracted fragments out again reproduces those bytes.
   */
  lemma ExtractionReadsAllBits(frame: seq<Byte>)
    requires |frame| >= CoreLength
    ensures 0 <= Lat14(frame) < FragmentRange && 0 <= Lng14(frame) < FragmentRange
    ensures Lat14(frame) / 64 == frame[1] && Lng14(frame) / 64 == frame[2]
    ensures FragmentBytes(Lat14(frame), Lng14(frame))
              == [frame[1], frame[2], frame[3], frame[4] - frame[4] % 16]
  {
    var lat := Lat14(frame);
    var lng := Lng14(frame);
    DivModUnique(lat, 64, frame[1], (frame[3] / 16) * 4 + frame[4] / 64);
    DivModUnique(lng, 64, frame[2], (frame[3] % 16) * 4 + (frame[4] % 64) / 16);
    DivModUnique(lat, 4, (frame[1] as int) * 16 + frame[3] / 16, frame[4] / 64);
    DivModUnique(lng, 4, (frame[2] as int) * 16 + frame[3] % 16, (frame[4] % 64) / 16);
    DivModUnique((frame[1] as int) * 16 + frame[3] / 16, 16, frame[1], frame[3] / 16);
    DivModUnique((frame[2] as int) * 16 + frame[3] % 16, 16, frame[2], frame[3] % 16);
  }

  /**
   * The main loop's handling of one frame read at second `sec`. A short frame
   * or one failing the checksum is dropped and leaves the state as it was.
   */
  function Step(b: Balloon, frame: seq<Byte>, sec: int): (r: Balloon)
    ensures !Accepted(frame) ==> r == b
    ensures Accepted(frame) ==>
              && r.iAlt == frame[0]
              && r.altitude == AltitudeCodec.Decode(frame[0])
              && var shift := ShiftFor(r.altitude);
                 && (r.iLat / Pow2(shift)) % FragmentRange == Lat14(frame)
                 && (r.iLng / Pow2(shift)) % FragmentRange == Lng14(frame)
                 && -(Span(shift) / 2) <= r.iLat - b.iLat <= Span(shift) / 2
                 && -(Span(shift) / 2) <= r.iLng - b.iLng <= Span(shift) / 2
    ensures Accepted(frame) && |frame| == CoreLength ==>
              r == Update(b, frame[0], Lat14(frame), Lng14(frame))
    ensures Accepted(frame) && |frame| > CoreLength ==>
              r == UpdatePred(Update(b, frame[0], Lat14(frame), Lng14(frame)), frame[5], sec)
    ensures r.maxAltitude >= b.maxAltitude
  {
    if !Accepted(frame) then
      b
    else
      var lat14 := Lat14(frame);
      var lng14 := Lng14(frame);
      ExtractionReadsAllBits(frame);
      DivModUnique(lat14, FragmentRange, 0, lat14);
      DivModUnique(lng14, FragmentRange, 0, lng14);
      var b1 := Update(b, frame[0], lat14, lng14);
      if |frame| > CoreLength then UpdatePred(b1, frame[5], sec) else b1
  }
}
