/**
 * Reconstruction of full-precision values from the partial fields the radio
 * link carries (`Cordinate#adjust` and `Cordinate#adjust_prefix`).
 *
 * A coordinate is held as an integer scaled by 2^16 per degree. A packet
 * carries only a 14-bit fragment of it, taken `shift` bits up; the receiver
 * splices the fragment into the value it already has and then picks, of the
 * values that differ by a whole span, the one nearest the previous value.
 */
module Reconcile {
  import opened Numeric

  /** Width of the transmitted coordinate fragment. */
  const FragmentBits: nat := 14
  const FragmentRange: nat := 0x4000

  /** The span, 2^(14 + shift): the range a fragment covers at this shift. */
  function Span(shift: nat): nat
  {
    Pow2(FragmentBits + shift)
  }

  lemma SpanIsWindow(shift: nat)
    ensures Span(shift) == FragmentRange * Pow2(shift)
    ensures Span(shift) % 2 == 0
  {
    Pow2Add(FragmentBits, shift);
    Pow2Table();
    var half := 0x2000 * Pow2(shift);
    assert Span(shift) == 2 * half;
    DivModUnique(Span(shift), 2, half, 0);
  }

  /**
   * The splice in `adjust`: a mask keeps the bits of `curr` below `shift` and
   * from `14 + shift` up, and the second operand is `update` moved up by
   * `shift` and cut to the span. The two operands share no bits, so OR-ing
   * them adds them.
   */
  function Splice(curr: int, update: int, shift: nat): int
  {
    var span := Span(shift);
    (curr - curr % span + curr % Pow2(shift)) + (update * Pow2(shift)) % span
  }

  /**
   * The splice keeps `curr`'s low `shift` bits and its bits above the window,
   * and puts the low 14 bits of `update` in the window.
   */
  lemma SpliceWindow(curr: int, update: int, shift: nat)
    ensures Splice(curr, update, shift) % Pow2(shift) == curr % Pow2(shift)
    ensures (Splice(curr, update, shift) / Pow2(shift)) % FragmentRange == update % FragmentRange
    ensures Splice(curr, update, shift) / Span(shift) == curr / Span(shift)
  {
    SpanIsWindow(shift);
    WindowSplice(curr, update, FragmentRange, Pow2(shift));
  }

  /**
   * `Cordinate#adjust`: splice the fragment in, then undo a wrap of the window
   * if that moved the value more than half a span. The comparisons are
   * strict, so a move of exactly half a span stays as spliced.
   *
   * The contract: the low `shift` bits of `curr` are kept, the fragment sits
   * in bits `shift .. 13 + shift`, and the result is within half a span of
   * `curr`. `AdjustKeepsNearSplice` states which splices are kept.
   */
  function Adjust(curr: int, update: int, shift: nat): (r: int)
    ensures r % Pow2(shift) == curr % Pow2(shift)
    ensures (r / Pow2(shift)) % FragmentRange == update % FragmentRange
    ensures -(Span(shift) / 2) <= r - curr <= Span(shift) / 2
  {
    var span: int := Span(shift);
    var spliced := Splice(curr, update, shift);
    var half := span / 2;
    var k :=
      if spliced > curr then
        (if spliced - curr > half then -1 else 0)
      else
        (if curr - spliced > half then 1 else 0);
    SpliceWindow(curr, update, shift);
    SpanIsWindow(shift);
    WindowShift(spliced, k, FragmentRange, Pow2(shift));
    SameQuotientClose(spliced, curr, span);
    UnwrapWithinHalf(curr, spliced, span, k);
    spliced + k * span
  }

  /**
   * A splice already within half a span of `curr`, either way and ties
   * included, is returned unchanged: only a move of more than half a span
   * is undone.
   */
  lemma AdjustKeepsNearSplice(curr: int, update: int, shift: nat)
    requires -(Span(shift) / 2) <= Splice(curr, update, shift) - curr <= Span(shift) / 2
    ensures Adjust(curr, update, shift) == Splice(curr, update, shift)
  {
  }

  /** Undoing a wrap brings a value within a span of `curr` to within half a span of it. */
  lemma UnwrapWithinHalf(curr: int, spliced: int, span: int, k: int)
    requires span > 0 && span % 2 == 0 && -span < spliced - curr < span
    requires k == if spliced > curr then (if spliced - curr > span / 2 then -1 else 0)
                 else (if curr - spliced > span / 2 then 1 else 0)
    ensures -(span / 2) <= spliced + k * span - curr <= span / 2
  {
  }

  /** The fragment of a coordinate the transmitter sends at a given shift. */
  function Fragment(t: int, shift: nat): (f: int)
    ensures 0 <= f < FragmentRange
  {
    (t / Pow2(shift)) % FragmentRange
  }

  /**
   * Wrap-around correctness: a coordinate that agrees with `curr` below `shift`
   * and lies strictly within half a span of it is recovered exactly from its
   * own fragment.
   */
  lemma AdjustRecovers(curr: int, t: int, shift: nat)
    requires t % Pow2(shift) == curr % Pow2(shift)
    requires -(Span(shift) / 2) < t - curr < Span(shift) / 2
    ensures Adjust(curr, Fragment(t, shift), shift) == t
  {
    SpanIsWindow(shift);
    var r := Adjust(curr, Fragment(t, shift), shift);
    assert (t / Pow2(shift)) % FragmentRange % FragmentRange == (t / Pow2(shift)) % FragmentRange;
    WindowDetermines(r, t, FragmentRange, Pow2(shift));
  }

  /**
   * The tie is not corrected: with `curr = 0` and shift 0, the coordinate
   * exactly half a span below (-8192) sends fragment 8192 and is read back
   * as +8192, a full span away from where it was.
   */
  lemma AdjustTieKeepsSplice()
    ensures Fragment(-8192, 0) == 8192
    ensures Adjust(0, 8192, 0) == 8192
    ensures Adjust(0, Fragment(8192, 0), 0) == 8192
  {
    assert Pow2(0) == 1;
    assert Span(0) == 0x4000 by { SpanIsWindow(0); }
    assert Splice(0, 8192, 0) == 8192;
  }

  /**
   * `Cordinate#adjust_prefix`: keep the prefix of `prev` above `bits`, take the
   * low `bits` bits from `next` (`new` in kikyu-111.rb), and move the prefix by one range when the
   * low parts differ by more than half a range.
   */
  function AdjustPrefix(prev: int, next: int, bits: nat): (r: int)
    ensures r % Pow2(bits) == next % Pow2(bits)
    ensures -(Pow2(bits) / 2) <= r - prev <= Pow2(bits) / 2
    ensures next % Pow2(bits) == prev % Pow2(bits) ==> r == prev
  {
    var range := Pow2(bits);
    var halfRange := range / 2;
    var diff := next % range - prev % range;
    var prefix := prev - prev % range;
    var moved := prefix + (if diff < -halfRange then range else 0)
                        - (if diff > halfRange then range else 0);
    Pow2Parity(bits);
    assert prefix == (prev / range) * range;
    var k := prev / range + (if diff < -halfRange then 1 else 0)
                          - (if diff > halfRange then 1 else 0);
    assert moved == k * range;
    DivModUnique(moved + next % range, range, k, next % range);
    moved + next % range
  }

  /**
   * When the low parts of `prev` and `next` differ by at most half a range,
   * ties included, the prefix of `prev` is kept as it is.
   */
  lemma AdjustPrefixKeepsNearPrefix(prev: int, next: int, bits: nat)
    requires -(Pow2(bits) / 2) <= next % Pow2(bits) - prev % Pow2(bits) <= Pow2(bits) / 2
    ensures AdjustPrefix(prev, next, bits) == prev - prev % Pow2(bits) + next % Pow2(bits)
  {
  }

  /**
   * A value within less than half a range of `prev` is recovered from its low
   * `bits` bits alone.
   */
  lemma AdjustPrefixRecovers(prev: int, t: int, bits: nat)
    requires -(Pow2(bits) / 2) < t - prev < Pow2(bits) / 2
    ensures AdjustPrefix(prev, t % Pow2(bits), bits) == t
  {
    var range := Pow2(bits);
    var r := AdjustPrefix(prev, t % range, bits);
    DivModUnique(t % range, range, 0, t % range);
    assert r % range == t % range;
    assert -range < r - t < range;
    SameRemainder(r, t, range);
    MultipleWithin(r - t, r / range - t / range, range);
  }
}
