/**
 * `location_msg` of kikyu-111.rb: the position report sent to the server.
 * The text `id + time + type + location` is made of hexadecimal and decimal
 * digits, and `pack("H*")` turns each pair of them into one byte.
 *
 * The location text is, in order: the code of 'N' as two hex digits, the
 * latitude degrees in two digits and its minutes in six, the code of 'E' as
 * two hex digits, the longitude degrees in four digits and its minutes in
 * six, and the height in six. The minutes fields are the fractional degrees
 * times 600000, and every field is truncated toward zero. The time stamp `%Y%m%d%H%M%S` of the wall clock is
 * a parameter.
 */
module LocationMessage {
  import opened Numeric

  function Pow10(n: nat): (r: nat)
    ensures r >= 1
  {
    if n == 0 then 1 else 10 * Pow10(n - 1)
  }

  predicate IsDigit(c: char)
  {
    '0' <= c <= '9'
  }

  predicate AllDigits(s: string)
  {
    forall k :: 0 <= k < |s| ==> IsDigit(s[k])
  }

  function DigitChar(d: nat): (c: char)
    requires d < 10
    ensures IsDigit(c) && c as int - '0' as int == d
  {
    ('0' as int + d) as char
  }

  /** The value of a string of decimal digits, most significant first: the reading a parser makes. */
  function DecimalValue(s: string): int
  {
    if |s| == 0 then 0 else DecimalValue(s[..|s| - 1]) * 10 + (s[|s| - 1] as int - '0' as int)
  }

  lemma {:induction false} Pow10Monotone(a: nat, b: nat)
    requires a <= b
    ensures Pow10(a) <= Pow10(b)
    decreases b
  {
    if a < b {
      Pow10Monotone(a, b - 1);
    }
  }

  /**
   * The decimal numeral of `n` (`%d`): as many digits as `n` needs and no
   * leading zero, reading back as `n`.
   */
  function Numeral(n: nat): (s: string)
    ensures |s| >= 1 && AllDigits(s)
    ensures DecimalValue(s) == n
    ensures n < Pow10(|s|) && (n == 0 || Pow10(|s| - 1) <= n)
    decreases n
  {
    if n < 10 then [DigitChar(n)]
    else
      var head := Numeral(n / 10);
      var s := head + [DigitChar(n % 10)];
      assert s[..|s| - 1] == head;
      s
  }

  /** A number below `10^width` has a numeral of at most `width` digits. */
  lemma NumeralFits(n: nat, width: nat)
    ensures n < Pow10(width) ==> |Numeral(n)| <= width || (n == 0 && width == 0)
  {
    var s := Numeral(n);
    if width < |s| {
      Pow10Monotone(width, |s| - 1);
    }
  }

  function Zeros(n: nat): (s: string)
    ensures |s| == n && forall k :: 0 <= k < n ==> s[k] == '0'
  {
    if n == 0 then [] else ['0'] + Zeros(n - 1)
  }

  /** Leading zeros do not change a decimal value. */
  lemma {:induction false} ZerosValue(n: nat, s: string)
    ensures DecimalValue(Zeros(n) + s) == DecimalValue(s)
    decreases |s|
  {
    if |s| == 0 {
      ZerosOnly(n);
      assert Zeros(n) + s == Zeros(n);
    } else {
      var t := Zeros(n) + s;
      assert t[..|t| - 1] == Zeros(n) + s[..|s| - 1];
      ZerosValue(n, s[..|s| - 1]);
    }
  }

  lemma {:induction false} ZerosOnly(n: nat)
    ensures DecimalValue(Zeros(n)) == 0
  {
    if n > 0 {
      var z := Zeros(n);
      var y := z[..n - 1];
      assert y == Zeros(n - 1) by {
        assert forall k :: 0 <= k < n - 1 ==> y[k] == '0';
      }
      ZerosOnly(n - 1);
    }
  }

  /** `s` left-padded with zeros to `width` characters. */
  function ZeroPad(s: string, width: nat): (r: string)
    ensures |r| == if |s| < width then width else |s|
    ensures AllDigits(s) ==> AllDigits(r) && DecimalValue(r) == DecimalValue(s)
  {
    if |s| < width then
      ZerosValue(width - |s|, s);
      Zeros(width - |s|) + s
    else
      s
  }

  /**
   * `sprintf("%0<width>d", n)`: zero-padded to `width` characters; a negative
   * number puts its sign first and pads the magnitude to one character less.
   */
  function FormatInt(n: int, width: nat): (r: string)
    ensures 0 <= n < Pow10(width) && width >= 1 ==> |r| == width && AllDigits(r) && DecimalValue(r) == n
    ensures n < 0 ==> |r| >= 2 && r[0] == '-' && AllDigits(r[1..]) && DecimalValue(r[1..]) == -n
    ensures n < 0 ==> |r| == Max(width, |Numeral(-n)| + 1)
  {
    if n >= 0 then
      NumeralFits(n, width);
      ZeroPad(Numeral(n), width)
    else
      var pad := if width >= 1 then width - 1 else 0;
      var r := "-" + ZeroPad(Numeral(-n), pad);
      assert r[1..] == ZeroPad(Numeral(-n), pad);
      r
  }

  /** An upper-case hexadecimal digit. */
  function HexDigit(d: nat): (c: char)
    requires d < 16
  {
    if d < 10 then DigitChar(d) else ('A' as int + (d - 10)) as char
  }

  /** `sprintf("%02X", n)` for a byte. */
  function HexByte(n: Byte): (s: string)
    ensures |s| == 2
  {
    [HexDigit(n / 16), HexDigit(n % 16)]
  }

  predicate IsAsciiLetter(c: char)
  {
    'A' <= c <= 'Z' || 'a' <= c <= 'z'
  }

  /**
   * The nibble `pack("H*")` takes from one character: the low four bits,
   * plus nine for a letter, so that `A`-`F` and `a`-`f` give 10-15.
   */
  function Nibble(c: char): (v: nat)
    ensures v < 16
  {
    if IsAsciiLetter(c) then ((c as int % 16) + 9) % 16 else c as int % 16
  }

  lemma NibbleOfHexDigit(d: nat)
    requires d < 16
    ensures Nibble(HexDigit(d)) == d
  {
  }

  /**
   * `m` holds the text `s` two hex digits to a byte, the first as the high
   * nibble, and a lone last digit as the high nibble of a last byte.
   */
  predicate PackedFrom(s: string, m: seq<Byte>)
  {
    && |m| == (|s| + 1) / 2
    && forall k :: 0 <= k < |m| ==>
         m[k] == Nibble(s[2 * k]) * 16 + (if 2 * k + 1 < |s| then Nibble(s[2 * k + 1]) else 0)
  }

  /**
   * `[s].pack("H*")`: each pair of characters becomes one byte, the first as
   * the high nibble; an odd last character fills the high nibble of a last
   * byte whose low nibble is zero.
   */
  function PackHex(s: string): (r: seq<Byte>)
    ensures |r| == (|s| + 1) / 2
    ensures forall k :: 0 <= k < |r| ==>
              r[k] == Nibble(s[2 * k]) * 16 + (if 2 * k + 1 < |s| then Nibble(s[2 * k + 1]) else 0)
    ensures PackedFrom(s, r)
  {
    if |s| == 0 then []
    else if |s| == 1 then [Nibble(s[0]) * 16]
    else
      var rest := PackHex(s[2..]);
      var r := [Nibble(s[0]) * 16 + Nibble(s[1])] + rest;
      assert forall k :: 1 <= k < |r| ==> r[k] == rest[k - 1];
      assert forall k :: 1 <= k < |r| ==> s[2..][2 * (k - 1)] == s[2 * k];
      assert forall k :: 1 <= k < |r| && 2 * (k - 1) + 1 < |s[2..]| ==> s[2..][2 * (k - 1) + 1] == s[2 * k + 1];
      r
  }

  /** Text of even length packs into whole bytes, so packing distributes over appending it. */
  lemma {:induction false} PackHexAppend(a: string, b: string)
    requires |a| % 2 == 0
    ensures PackHex(a + b) == PackHex(a) + PackHex(b)
  {
    if |a| == 0 {
      assert a + b == b;
    } else {
      var s := a + b;
      var first := [Nibble(a[0]) * 16 + Nibble(a[1])];
      assert s[0] == a[0] && s[1] == a[1];
      assert s[2..] == a[2..] + b;
      PackHexAppend(a[2..], b);
      ConcatAssociates(first, PackHex(a[2..]), PackHex(b));
    }
  }

  lemma EvenSum(x: nat, y: nat)
    requires x % 2 == 0 && y % 2 == 0
    ensures (x + y) % 2 == 0
  {
  }

  lemma ConcatAssociates<T>(x: seq<T>, y: seq<T>, z: seq<T>)
    ensures x + (y + z) == (x + y) + z
  {
  }

  /** The upper-case hexadecimal text of a byte string (`unpack("H*")`, upper-cased). */
  function HexText(bytes: seq<Byte>): (s: string)
    ensures |s| == 2 * |bytes|
  {
    if |bytes| == 0 then [] else HexByte(bytes[0]) + HexText(bytes[1..])
  }

  /** Packing is the inverse of hexadecimal text: no byte is lost or altered. */
  lemma {:induction false} PackHexText(bytes: seq<Byte>)
    ensures PackHex(HexText(bytes)) == bytes
  {
    if |bytes| > 0 {
      var s := HexText(bytes);
      assert s[2..] == HexText(bytes[1..]);
      PackHexText(bytes[1..]);
      NibbleOfHexDigit(bytes[0] / 16);
      NibbleOfHexDigit(bytes[0] % 16);
      assert PackHex(s)[0] == bytes[0];
      assert PackHex(s) == [PackHex(s)[0]] + PackHex(s[2..]);
    }
  }

  /** The value of one decimal digit. */
  function DigitValue(c: char): int
  {
    c as int - '0' as int
  }

  /** Two decimal digits pack into their binary-coded-decimal byte. */
  lemma PackedDigits(s: string, k: nat)
    requires 2 * k + 1 < |s| && IsDigit(s[2 * k]) && IsDigit(s[2 * k + 1])
    ensures PackHex(s)[k] == DigitValue(s[2 * k]) * 16 + DigitValue(s[2 * k + 1])
  {
    var r := PackHex(s);
    var i := 2 * k;
    assert r[k] == Nibble(s[i]) * 16 + Nibble(s[i + 1]);
    NibbleOfDigit(s[i]);
    NibbleOfDigit(s[i + 1]);
  }

  lemma NibbleOfDigit(c: char)
    requires IsDigit(c)
    ensures Nibble(c) == DigitValue(c)
  {
    DivModUnique(c as int, 16, 3, DigitValue(c));
  }

  lemma TwoDigitValue(t: string)
    requires |t| == 2
    ensures DecimalValue(t) == DigitValue(t[0]) * 10 + DigitValue(t[1])
  {
    var u := t[..1];
    assert u[..0] == [] && u[0] == t[0];
    assert DecimalValue(u) == DigitValue(t[0]);
  }

  /** Minutes of a fractional degree, in units of 1/10000 minute, truncated. */
  function Minutes(x: real): int
  {
    Trunc((x - Trunc(x) as real) * 600000.0)
  }

  lemma MinutesRange(x: real)
    ensures x >= 0.0 ==> 0 <= Minutes(x) < 600000
  {
  }

  /**
   * The location text. Within the ranges the format's widths are made for
   * it is 28 characters: `4E`, two latitude-degree digits, six of minutes,
   * `45`, four longitude-degree digits, six of minutes and six of height in
   * metres, each field reading back as its number.
   */
  function LocationText(lat: real, lng: real, height: real): (t: string)
    ensures 0.0 <= lat < 100.0 && 0.0 <= lng < 10000.0 && 0.0 <= height < 1000000.0 ==>
              && |t| == 28
              && t[0..2] == "4E" && t[10..12] == "45"
              && AllDigits(t[2..10]) && AllDigits(t[12..28])
              && DecimalValue(t[2..4]) == Trunc(lat) && DecimalValue(t[4..10]) == Minutes(lat)
              && DecimalValue(t[12..16]) == Trunc(lng) && DecimalValue(t[16..22]) == Minutes(lng)
              && DecimalValue(t[22..28]) == Trunc(height)
  {
    var t := HexByte('N' as int) + FormatInt(Trunc(lat), 2) + FormatInt(Minutes(lat), 6)
           + HexByte('E' as int) + FormatInt(Trunc(lng), 4) + FormatInt(Minutes(lng), 6)
           + FormatInt(Trunc(height), 6);
    LocationFields(lat, lng, height);
    t
  }

  lemma LocationFields(lat: real, lng: real, height: real)
    ensures var t := HexByte('N' as int) + FormatInt(Trunc(lat), 2) + FormatInt(Minutes(lat), 6)
                   + HexByte('E' as int) + FormatInt(Trunc(lng), 4) + FormatInt(Minutes(lng), 6)
                   + FormatInt(Trunc(height), 6);
            0.0 <= lat < 100.0 && 0.0 <= lng < 10000.0 && 0.0 <= height < 1000000.0 ==>
              && |t| == 28
              && t[0..2] == "4E" && t[10..12] == "45"
              && AllDigits(t[2..10]) && AllDigits(t[12..28])
              && DecimalValue(t[2..4]) == Trunc(lat) && DecimalValue(t[4..10]) == Minutes(lat)
              && DecimalValue(t[12..16]) == Trunc(lng) && DecimalValue(t[16..22]) == Minutes(lng)
              && DecimalValue(t[22..28]) == Trunc(height)
  {
    if 0.0 <= lat < 100.0 && 0.0 <= lng < 10000.0 && 0.0 <= height < 1000000.0 {
      assert Pow10(2) == 100 && Pow10(4) == 10000 && Pow10(6) == 1000000;
      MinutesRange(lat);
      MinutesRange(lng);
      var n := HexByte('N' as int);
      var a := FormatInt(Trunc(lat), 2);
      var b := FormatInt(Minutes(lat), 6);
      var e := HexByte('E' as int);
      var c := FormatInt(Trunc(lng), 4);
      var d := FormatInt(Minutes(lng), 6);
      var h := FormatInt(Trunc(height), 6);
      assert n == "4E" && e == "45";
      Layout(n, a, b, e, c, d, h);
    }
  }

  /** Where the seven fields of the location text sit, and that its number fields are all digits. */
  lemma Layout(n: string, a: string, b: string, e: string, c: string, d: string, h: string)
    requires |n| == 2 && |a| == 2 && |b| == 6 && |e| == 2 && |c| == 4 && |d| == 6 && |h| == 6
    requires AllDigits(a) && AllDigits(b) && AllDigits(c) && AllDigits(d) && AllDigits(h)
    ensures var t := n + a + b + e + c + d + h;
            && |t| == 28
            && t[0..2] == n && t[2..4] == a && t[4..10] == b && t[10..12] == e
            && t[12..16] == c && t[16..22] == d && t[22..28] == h
            && AllDigits(t[2..10]) && AllDigits(t[12..28])
  {
    var t := n + a + b + e + c + d + h;
    assert t[2..10] == a + b;
    assert t[12..28] == c + d + h;
  }

  /**
   * `location_msg(id, lat, lng, height, type)` with the time stamp given as
   * `time`: the packed bytes of `id + time + type + location`, each byte one
   * pair of that text's hex digits. `LocationMsgParts` splits the message
   * into its fields.
   */
  function LocationMsg(id: string, time: string, kind: string, lat: real, lng: real, height: real): (m: seq<Byte>)
    ensures |m| == (|id| + |time| + |kind| + |LocationText(lat, lng, height)| + 1) / 2
    ensures PackedFrom(id + time + kind + LocationText(lat, lng, height), m)
    ensures |id| == 4 && |time| == 14 && |kind| == 2 &&
            0.0 <= lat < 100.0 && 0.0 <= lng < 10000.0 && 0.0 <= height < 1000000.0 ==>
              && |m| == 24
              && m[10] == 0x4E && m[15] == 0x45
              && m[11] == (Trunc(lat) / 10) * 16 + Trunc(lat) % 10
  {
    var loc := LocationText(lat, lng, height);
    LocationMsgLayout(id, time, kind, lat, lng, height);
    PackHex(id + time + kind + loc)
  }

  /**
   * When the station id, the time stamp and the type each fill whole bytes,
   * the message is their packed bytes in that order followed by the packed
   * location text.
   */
  lemma LocationMsgParts(id: string, time: string, kind: string, lat: real, lng: real, height: real)
    ensures |id| % 2 == 0 && |time| % 2 == 0 && |kind| % 2 == 0 ==>
              LocationMsg(id, time, kind, lat, lng, height)
                == PackHex(id) + PackHex(time) + PackHex(kind) + PackHex(LocationText(lat, lng, height))
  {
    if |id| % 2 == 0 && |time| % 2 == 0 && |kind| % 2 == 0 {
      PackHexParts(id, time, kind, LocationText(lat, lng, height));
    }
  }

  /** Three whole-byte texts and a fourth pack one after the other. */
  lemma PackHexParts(a: string, b: string, c: string, d: string)
    requires |a| % 2 == 0 && |b| % 2 == 0 && |c| % 2 == 0
    ensures PackHex(a + b + c + d) == PackHex(a) + PackHex(b) + PackHex(c) + PackHex(d)
  {
    var ab, abc := a + b, a + b + c;
    EvenSum(|a|, |b|);
    EvenSum(|ab|, |c|);
    PackHexAppend(a, b);
    PackHexAppend(ab, c);
    PackHexAppend(abc, d);
  }

  lemma LocationMsgLayout(id: string, time: string, kind: string, lat: real, lng: real, height: real)
    ensures var m := PackHex(id + time + kind + LocationText(lat, lng, height));
            |id| == 4 && |time| == 14 && |kind| == 2 &&
            0.0 <= lat < 100.0 && 0.0 <= lng < 10000.0 && 0.0 <= height < 1000000.0 ==>
              && |m| == 24
              && m[10] == 0x4E && m[15] == 0x45
              && m[11] == (Trunc(lat) / 10) * 16 + Trunc(lat) % 10
  {
    var head := id + time + kind;
    if |head| == 20 && 0.0 <= lat < 100.0 && 0.0 <= lng < 10000.0 && 0.0 <= height < 1000000.0 {
      LocationBytes(head, LocationText(lat, lng, height), Trunc(lat));
    }
  }

  lemma LocationBytes(head: string, loc: string, deg: int)
    requires |head| == 20 && |loc| == 28
    requires loc[0..2] == "4E" && loc[10..12] == "45"
    requires AllDigits(loc[2..10]) && DecimalValue(loc[2..4]) == deg
    ensures var m := PackHex(head + loc);
            && |m| == 24
            && m[10] == 0x4E && m[15] == 0x45
            && m[11] == (deg / 10) * 16 + deg % 10
  {
    var s := head + loc;
    var two := loc[2..4];
    assert s[20] == loc[0] == '4' && s[21] == loc[1] == 'E';
    assert s[30] == loc[10] == '4' && s[31] == loc[11] == '5';
    assert s[22] == two[0] == loc[2..10][0] && s[23] == two[1] == loc[2..10][1];
    PackedPair(s, 10);
    PackedPair(s, 15);
    MarkerNibbles();
    PackedDigits(s, 11);
    TwoDigitValue(two);
    DivModUnique(deg, 10, DigitValue(s[22]), DigitValue(s[23]));
  }

  /** One byte of the packed text, from its two characters. */
  lemma PackedPair(s: string, k: nat)
    requires 2 * k + 1 < |s|
    ensures PackHex(s)[k] == Nibble(s[2 * k]) * 16 + Nibble(s[2 * k + 1])
  {
  }

  /** The nibbles of the two field markers' characters. */
  lemma MarkerNibbles()
    ensures Nibble('4') == 4 && Nibble('5') == 5 && Nibble('E') == 14
  {
    DivModUnique('4' as int, 16, 3, 4);
    DivModUnique('5' as int, 16, 3, 5);
    DivModUnique('E' as int, 16, 4, 5);
    DivModUnique(14, 16, 0, 14);
  }
}
