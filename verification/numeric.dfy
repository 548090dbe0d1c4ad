/**
 * Integer and real helpers shared by the tracker model: powers of two,
 * Ruby's rounding conversions on `Float`, `Integer#|` on non-negative
 * integers, and the Euclidean division facts the bit-window proofs use.
 *
 * Ruby integers are unbounded and use two's complement for bitwise
 * operators, so for a power of two `m` the mask `x & (m - 1)` is `x % m`
 * and `x & -m` is `x - x % m` with Dafny's Euclidean `%`, whatever the
 * sign of `x`.
 */
module Numeric {

  /** A value that fits in one octet, as produced by `String#unpack('C*')`. */
  type Byte = x: int | 0 <= x < 256

  /** Two to the power `n`. */
  function Pow2(n: nat): (r: nat)
    ensures r >= 1
  {
    if n == 0 then 1 else 2 * Pow2(n - 1)
  }

  lemma {:induction false} Pow2Add(a: nat, b: nat)
    ensures Pow2(a + b) == Pow2(a) * Pow2(b)
    decreases a
  {
    if a > 0 {
      Pow2Add(a - 1, b);
      assert Pow2(a + b) == 2 * Pow2(a - 1 + b);
    }
  }

  /** The powers of two the tracker's field widths use. */
  lemma Pow2Table()
    ensures Pow2(2) == 4 && Pow2(4) == 16 && Pow2(6) == 64 && Pow2(8) == 256
    ensures Pow2(14) == 0x4000
  {
    assert Pow2(1) == 2;
    assert Pow2(2) == 4;
    assert Pow2(3) == 8;
    assert Pow2(4) == 16;
    assert Pow2(5) == 32;
    assert Pow2(6) == 64;
    assert Pow2(7) == 128;
    assert Pow2(8) == 256;
    assert Pow2(9) == 512;
    assert Pow2(10) == 1024;
    assert Pow2(11) == 2048;
    assert Pow2(12) == 4096;
    assert Pow2(13) == 8192;
  }

  /** Every power of two except `1 << 0` is even. */
  lemma Pow2Parity(n: nat)
    ensures n == 0 ==> Pow2(n) == 1
    ensures n > 0 ==> Pow2(n) % 2 == 0
  {
  }

  /** Ruby's `Float#to_i` / `Float#truncate`: rounds toward zero. */
  function Trunc(x: real): (r: int)
    ensures x >= 0.0 ==> r >= 0 && r as real <= x < r as real + 1.0
    ensures x < 0.0 ==> r <= 0 && r as real - 1.0 < x <= r as real
  {
    if x >= 0.0 then x.Floor else -((-x).Floor)
  }

  /** Ruby's `Float#round`: nearest integer, halves rounded away from zero. */
  function Round(x: real): (r: int)
    ensures x >= 0.0 ==> x - 0.5 < r as real <= x + 0.5
    ensures x < 0.0 ==> x - 0.5 <= r as real < x + 0.5
  {
    if x >= 0.0 then (x + 0.5).Floor else -((-x + 0.5).Floor)
  }

  function Max(a: int, b: int): int { if a < b then b else a }

  function MaxReal(a: real, b: real): real { if a < b then b else a }

  /** Ruby's `Integer#|` on non-negative integers, one bit at a time. */
  function BitOr(a: nat, b: nat): nat
    decreases a + b
  {
    if a == 0 then b
    else if b == 0 then a
    else 2 * BitOr(a / 2, b / 2) + (if a % 2 == 1 || b % 2 == 1 then 1 else 0)
  }

  /** Or-ing bits that do not overlap is addition. */
  lemma {:induction false} BitOrDisjoint(h: nat, x: nat, k: nat)
    requires h % Pow2(k) == 0
    requires x < Pow2(k)
    ensures BitOr(h, x) == h + x
    decreases k
  {
    if k == 0 {
      assert x == 0;
    } else if h != 0 && x != 0 {
      var p := Pow2(k - 1);
      assert Pow2(k) == 2 * p;
      var q := h / Pow2(k);
      DivModUnique(h, Pow2(k), q, 0);
      assert h == (q * p) * 2 by {
        assert h == q * (2 * p);
      }
      DivModUnique(h, 2, q * p, 0);
      DivModUnique(h / 2, p, q, 0);
      assert x / 2 < p;
      BitOrDisjoint(h / 2, x / 2, k - 1);
    }
  }

  /** Ruby's `Integer#^` on non-negative integers, one bit at a time. */
  function BitXor(a: nat, b: nat): nat
    decreases a + b
  {
    if a == 0 then b
    else if b == 0 then a
    else 2 * BitXor(a / 2, b / 2) + (if a % 2 == b % 2 then 0 else 1)
  }

  /** The lowest bit of `a ^ b` says whether the lowest bits differ; the rest is the XOR of the rest. */
  lemma BitXorDigits(a: nat, b: nat)
    ensures BitXor(a, b) / 2 == BitXor(a / 2, b / 2)
    ensures BitXor(a, b) % 2 == (if a % 2 == b % 2 then 0 else 1)
  {
    if a != 0 && b != 0 {
      DivModUnique(BitXor(a, b), 2, BitXor(a / 2, b / 2), if a % 2 == b % 2 then 0 else 1);
    }
  }

  /** Two naturals with the same lowest bit and the same higher bits are equal. */
  lemma SameDigits(x: nat, y: nat)
    requires x / 2 == y / 2 && x % 2 == y % 2
    ensures x == y
  {
  }

  lemma BitXorZero(a: nat)
    ensures BitXor(a, 0) == a && BitXor(0, a) == a
  {
  }

  lemma {:induction false} BitXorSelf(a: nat)
    ensures BitXor(a, a) == 0
    decreases a
  {
    if a != 0 {
      BitXorSelf(a / 2);
    }
  }

  lemma {:induction false} BitXorCommutes(a: nat, b: nat)
    ensures BitXor(a, b) == BitXor(b, a)
    decreases a + b
  {
    if a != 0 && b != 0 {
      BitXorCommutes(a / 2, b / 2);
    }
  }

  lemma {:induction false} BitXorAssociates(a: nat, b: nat, c: nat)
    ensures BitXor(BitXor(a, b), c) == BitXor(a, BitXor(b, c))
    decreases a + b + c
  {
    if a + b + c != 0 {
      var ab, bc := BitXor(a, b), BitXor(b, c);
      BitXorDigits(a, b);
      BitXorDigits(b, c);
      BitXorDigits(ab, c);
      BitXorDigits(a, bc);
      BitXorAssociates(a / 2, b / 2, c / 2);
      SameDigits(BitXor(ab, c), BitXor(a, bc));
    }
  }

  /** `a ^ b` is zero exactly when `a` and `b` are equal. */
  lemma {:induction false} BitXorZeroIff(a: nat, b: nat)
    ensures BitXor(a, b) == 0 <==> a == b
    decreases a + b
  {
    BitXorSelf(a);
    if a != 0 && b != 0 && BitXor(a, b) == 0 {
      BitXorDigits(a, b);
      BitXorZeroIff(a / 2, b / 2);
      SameDigits(a, b);
    }
  }

  /** XOR-ing both sides with the same value keeps them equal or unequal. */
  lemma BitXorCancel(h: nat, x: nat, y: nat)
    ensures BitXor(h, x) == BitXor(h, y) <==> x == y
  {
    BitXorAssociates(h, h, x);
    BitXorAssociates(h, h, y);
    BitXorSelf(h);
    BitXorZero(x);
    BitXorZero(y);
  }

  /** Operands below `2^k` give a result below `2^k`. */
  lemma {:induction false} BitXorBound(a: nat, b: nat, k: nat)
    requires a < Pow2(k) && b < Pow2(k)
    ensures BitXor(a, b) < Pow2(k)
    decreases k
  {
    if k > 0 && a != 0 && b != 0 {
      BitXorBound(a / 2, b / 2, k - 1);
    }
  }

  /** Dividing by `2 * p` is halving and then dividing by `p`. */
  lemma HalveThenDivide(x: nat, p: nat)
    requires p > 0
    ensures x / (2 * p) == (x / 2) / p
    ensures x % (2 * p) == 2 * ((x / 2) % p) + x % 2
  {
    var q, r := (x / 2) / p, (x / 2) % p;
    assert x == (2 * p) * q + (2 * r + x % 2);
    DivModUnique(x, 2 * p, q, 2 * r + x % 2);
  }

  /** Dividing by 16 is halving four times. */
  lemma HalveFourTimes(x: nat)
    ensures x / 16 == x / 2 / 2 / 2 / 2
  {
    HalveThenDivide(x, 8);
    HalveThenDivide(x / 2, 4);
    HalveThenDivide(x / 2 / 2, 2);
  }

  /** The high nibble of `a ^ b` is the XOR of the high nibbles. */
  lemma BitXorHighNibble(a: nat, b: nat)
    ensures BitXor(a, b) / 16 == BitXor(a / 16, b / 16)
  {
    BitXorDigits(a, b);
    BitXorDigits(a / 2, b / 2);
    BitXorDigits(a / 2 / 2, b / 2 / 2);
    BitXorDigits(a / 2 / 2 / 2, b / 2 / 2 / 2);
    HalveFourTimes(BitXor(a, b));
    HalveFourTimes(a);
    HalveFourTimes(b);
  }

  /** The bits of `a ^ b` below position `k` are the XOR of the bits of `a` and `b` below it. */
  lemma {:induction false} BitXorLow(a: nat, b: nat, k: nat)
    ensures BitXor(a, b) % Pow2(k) == BitXor(a % Pow2(k), b % Pow2(k))
    decreases k
  {
    if k > 0 {
      var p := Pow2(k - 1);
      var x, al, bl := BitXor(a, b), a % (2 * p), b % (2 * p);
      HalveThenDivide(x, p);
      HalveThenDivide(a, p);
      HalveThenDivide(b, p);
      BitXorDigits(a, b);
      BitXorLow(a / 2, b / 2, k - 1);
      DivModUnique(al, 2, (a / 2) % p, a % 2);
      DivModUnique(bl, 2, (b / 2) % p, b % 2);
      BitXorDigits(al, bl);
      DivModUnique(x % (2 * p), 2, BitXor((a / 2) % p, (b / 2) % p), x % 2);
      SameDigits(x % (2 * p), BitXor(al, bl));
    }
  }

  /** Euclidean division is unique: the quotient and remainder are determined. */
  lemma DivModUnique(r: int, m: int, q: int, s: int)
    requires m > 0
    requires 0 <= s < m
    requires r == q * m + s
    ensures r / m == q
    ensures r % m == s
  {
    var q' := r / m;
    var s' := r % m;
    assert r == q' * m + s';
    assert (q - q') * m == s' - s;
    if q > q' {
      MulAtLeast(q - q', m);
    } else if q < q' {
      MulAtLeast(q' - q, m);
    }
  }

  /** Two integers with the same quotient by `m` are less than `m` apart. */
  lemma SameQuotientClose(a: int, b: int, m: int)
    requires m > 0 && a / m == b / m
    ensures -m < a - b < m
  {
    var q := a / m;
    assert a == q * m + a % m;
    assert b == q * m + b % m;
  }

  lemma MulAtLeast(j: int, m: int)
    requires j >= 1
    requires m > 0
    ensures j * m >= m
  {
    assert j * m == (j - 1) * m + m;
    assert (j - 1) * m >= 0;
  }

  /** A multiple of `m` strictly between `-m` and `m` is zero. */
  lemma MultipleWithin(d: int, j: int, m: int)
    requires m > 0
    requires d == j * m
    requires -m < d < m
    ensures j == 0
  {
    if j >= 1 {
      MulAtLeast(j, m);
    } else if j <= -1 {
      MulAtLeast(-j, m);
    }
  }

  /** Two integers with the same remainder differ by a multiple of the modulus. */
  lemma SameRemainder(a: int, b: int, m: int)
    requires m > 0
    requires a % m == b % m
    ensures a - b == (a / m - b / m) * m
  {
    assert a == (a / m) * m + a % m;
    assert b == (b / m) * m + b % m;
    assert (a / m) * m - (b / m) * m == (a / m - b / m) * m;
  }

  lemma MulLeq(a: int, b: int, m: int)
    requires a <= b && m >= 0
    ensures a * m <= b * m
  {
    assert b * m - a * m == (b - a) * m;
  }

  /** Scaling by `m` commutes with reduction modulo `w`. */
  lemma MulModScaled(x: int, w: int, m: int)
    requires w > 0 && m > 0
    ensures (x * m) % (w * m) == (x % w) * m
  {
    var q := x / w;
    var u := x % w;
    assert x == q * w + u;
    assert x * m == q * (w * m) + u * m by {
      assert x * m == (q * w + u) * m;
      assert (q * w) * m == q * (w * m);
    }
    assert u * m <= (w - 1) * m by { MulLeq(u, w - 1, m); }
    assert (w - 1) * m == w * m - m;
    DivModUnique(x * m, w * m, q, u * m);
  }

  /**
   * Bit windows as quotient and remainder. With `span = w * m`, the value
   * `x - x % span + x % m + (y * m) % span` keeps `x` below `m` and from
   * `span` up, and holds `y % w` in the window between.
   */
  lemma WindowSplice(x: int, y: int, w: int, m: int)
    requires w > 0 && m > 0
    ensures var span := w * m;
            var s := (x - x % span + x % m) + (y * m) % span;
            && s % m == x % m
            && (s / m) % w == y % w
            && s / span == x / span
  {
    var span := w * m;
    var q := x / span;
    var a := x % m;
    var u := y % w;
    MulModScaled(y, w, m);
    var s := (x - x % span + x % m) + (y * m) % span;
    assert s == q * span + u * m + a;
    assert q * span == (q * w) * m;
    DivModUnique(s, m, q * w + u, a);
    DivModUnique(q * w + u, w, q, u);
    assert u * m + a < span by {
      MulLeq(u, w - 1, m);
      assert (w - 1) * m == span - m;
    }
    DivModUnique(s, span, q, u * m + a);
  }

  /** Adding whole spans changes neither the bits below `m` nor the window. */
  lemma WindowShift(x: int, k: int, w: int, m: int)
    requires w > 0 && m > 0
    ensures (x + k * (w * m)) % m == x % m
    ensures ((x + k * (w * m)) / m) % w == (x / m) % w
  {
    var xq := x / m;
    var y := x + k * (w * m);
    assert y == (xq + k * w) * m + x % m by {
      assert x == xq * m + x % m;
      assert k * (w * m) == (k * w) * m;
    }
    DivModUnique(y, m, xq + k * w, x % m);
    var xw := xq / w;
    assert xq + k * w == (xw + k) * w + xq % w by {
      assert xq == xw * w + xq % w;
    }
    DivModUnique(xq + k * w, w, xw + k, xq % w);
  }

  /** Two values less than a span apart that agree below `m` and in the window are equal. */
  lemma WindowDetermines(r: int, t: int, w: int, m: int)
    requires w > 0 && m > 0
    requires r % m == t % m
    requires (r / m) % w == (t / m) % w
    requires -(w * m) < r - t < w * m
    ensures r == t
  {
    SameRemainder(r, t, m);
    SameRemainder(r / m, t / m, w);
    var j := (r / m) / w - (t / m) / w;
    assert r - t == (j * w) * m;
    assert r - t == j * (w * m);
    MultipleWithin(r - t, j, w * m);
  }
}
