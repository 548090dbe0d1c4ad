/**
 * The one-byte, three-band altitude code of `Cordinate` (kikyu-111.rb).
 *
 *   code 0x00..0x7F  altitude = code * 62.5 m          (below 8 km)
 *   code 0x80..0xBF  altitude = 8000 m + 125 m * (code & 0x3F)
 *   code 0xC0..0xFF  altitude = 16000 m + 500 m * (code & 0x3F)
 *
 * Altitudes are exact reals; kikyu-111.rb's float factors 0.016, 0.008
 * and 0.002 are the exact fractions 2/125, 1/125 and 1/500.
 */
module AltitudeCodec {
  import opened Numeric

  /**
   * The encoder in `Cordinate#initialize`. `.to_i` truncates toward zero.
   * Every altitude from the ground up to 48 km gets a byte code, and that
   * code's decoded altitude is the bottom of a band step containing it.
   */
  function Encode(alt: real): (code: int)
    ensures 0.0 <= alt < 48000.0 ==>
              && 0 <= code < 256
              && Decode(code) <= alt < Decode(code) + Step(code)
  {
    if alt < 8000.0 then
      LowBandWithinStep(alt);
      Trunc(alt * 0.016)
    else if alt < 16000.0 then
      MiddleBandWithinStep(alt);
      BitOr(0x80, Trunc((alt - 8000.0) * 0.008))
    else
      HighBandWithinStep(alt);
      BitOr(0xC0, Trunc((alt - 16000.0) * 0.002))
  }

  /**
   * `Cordinate.alt_decode`. For a byte, `code & 0xC0 == 0xC0` is `code >= 0xC0`,
   * `code & 0x80 == 0x80` is `code >= 0x80`, and `code & 0x3F`, `code & 0x7F`
   * are `code % 64`, `code % 128`.
   */
  function Decode(code: Byte): (alt: real)
    ensures 0.0 <= alt <= 47500.0
    ensures code < 0x80 <==> alt < 8000.0
    ensures code < 0xC0 <==> alt < 16000.0
  {
    if code >= 0xC0 then
      (code % 64) as real * 1000.0 / 2.0 + 16000.0
    else if code >= 0x80 then
      (code % 128) as real * 1000.0 / 8.0 + 8000.0
    else
      code as real * 1000.0 / 16.0
  }

  /** The vertical resolution of the band a code belongs to. */
  function Step(code: Byte): real
  {
    if code >= 0xC0 then 500.0 else if code >= 0x80 then 125.0 else 62.5
  }

  /** Below 8 km the code is the altitude in steps of 62.5 m, truncated. */
  lemma LowBandWithinStep(alt: real)
    ensures var c := Trunc(alt * 0.016);
            0.0 <= alt < 8000.0 ==>
              && 0 <= c < 0x80
              && Decode(c) <= alt < Decode(c) + 62.5
  {
    var c := Trunc(alt * 0.016);
    if 0.0 <= alt < 8000.0 {
      assert c as real <= alt * 0.016 < c as real + 1.0;
      assert Decode(c) == c as real * 62.5;
    }
  }

  /** From 8 km to 16 km the code is 0x80 tagged onto the offset in steps of 125 m. */
  lemma MiddleBandWithinStep(alt: real)
    ensures var x := Trunc((alt - 8000.0) * 0.008);
            8000.0 <= alt < 16000.0 ==>
              && 0 <= x < 64
              && var c := BitOr(0x80, x);
                 && 0x80 <= c < 0xC0
                 && Decode(c) <= alt < Decode(c) + 125.0
  {
    var x := Trunc((alt - 8000.0) * 0.008);
    if 8000.0 <= alt < 16000.0 {
      assert x as real <= (alt - 8000.0) * 0.008 < x as real + 1.0;
      assert 0 <= x < 64;
      UpperBandCode(0x80, x);
      DivModUnique(0x80 + x, 128, 1, x);
      assert Decode(0x80 + x) == x as real * 125.0 + 8000.0;
    }
  }

  /** From 16 km to 48 km the code is 0xC0 tagged onto the offset in steps of 500 m. */
  lemma HighBandWithinStep(alt: real)
    ensures var x := Trunc((alt - 16000.0) * 0.002);
            16000.0 <= alt < 48000.0 ==>
              && 0 <= x < 64
              && var c := BitOr(0xC0, x);
                 && 0xC0 <= c < 0x100
                 && Decode(c) <= alt < Decode(c) + 500.0
  {
    var x := Trunc((alt - 16000.0) * 0.002);
    if 16000.0 <= alt < 48000.0 {
      assert x as real <= (alt - 16000.0) * 0.002 < x as real + 1.0;
      assert 0 <= x < 64;
      UpperBandCode(0xC0, x);
      DivModUnique(0xC0 + x, 64, 3, x);
      assert Decode(0xC0 + x) == x as real * 500.0 + 16000.0;
    }
  }

  /** Or-ing a band tag with a 6-bit offset places the offset below the tag. */
  lemma UpperBandCode(tag: nat, x: nat)
    requires tag == 0x80 || tag == 0xC0
    requires x < 64
    ensures BitOr(tag, x) == tag + x
  {
    Pow2Table();
    BitOrDisjoint(tag, x, 6);
  }

  /** Every byte is its own code: encoding a decoded altitude gives the byte back. */
  lemma EncodeDecode(code: Byte)
    ensures Encode(Decode(code)) == code
  {
    var alt := Decode(code);
    if code >= 0xC0 {
      DivModUnique(code, 64, 3, code - 0xC0);
      assert alt == (code - 0xC0) as real * 500.0 + 16000.0;
      assert Trunc((alt - 16000.0) * 0.002) == code - 0xC0;
      UpperBandCode(0xC0, code - 0xC0);
    } else if code >= 0x80 {
      DivModUnique(code, 128, 1, code - 0x80);
      assert alt == (code - 0x80) as real * 125.0 + 8000.0;
      assert Trunc((alt - 8000.0) * 0.008) == code - 0x80;
      UpperBandCode(0x80, code - 0x80);
    } else {
      assert Trunc(alt * 0.016) == code;
    }
  }

  /** Decoding is strictly increasing, so distinct codes name distinct altitudes. */
  lemma DecodeIncreasing(c1: Byte, c2: Byte)
    requires c1 < c2
    ensures Decode(c1) < Decode(c2)
  {
  }

  /**
   * The band edges fall exactly on codes 0x80 and 0xC0, and an altitude at or
   * beyond 48 km is no longer representable: its code is the 0xC0 of 16 km.
   */
  lemma BandEdges()
    ensures Encode(8000.0) == 0x80 && Encode(16000.0) == 0xC0
    ensures Encode(48000.0) == 0xC0 && Decode(0xC0) == 16000.0
  {
    assert Trunc((8000.0 - 8000.0) * 0.008) == 0;
    UpperBandCode(0x80, 0);
    assert Trunc((16000.0 - 16000.0) * 0.002) == 0;
    UpperBandCode(0xC0, 0);
    assert Trunc((48000.0 - 16000.0) * 0.002) == 64;
    assert BitOr(0x01, 0) == 1;
    assert BitOr(0x03, 1) == 2 * BitOr(0x01, 0) + 1;
    assert BitOr(0x06, 2) == 2 * BitOr(0x03, 1);
    assert BitOr(0x0C, 4) == 2 * BitOr(0x06, 2);
    assert BitOr(0x18, 8) == 2 * BitOr(0x0C, 4);
    assert BitOr(0x30, 16) == 2 * BitOr(0x18, 8);
    assert BitOr(0x60, 32) == 2 * BitOr(0x30, 16);
    assert BitOr(0xC0, 64) == 2 * BitOr(0x60, 32);
  }
}
