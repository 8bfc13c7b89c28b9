/** Facts about the price formula `minutes * rate / 60`, discounted or not,
    over the reals alone. They are kept apart from the tickets so that each
    nonlinear step is a small proof of its own. */
module FareArithmetic {
  import opened FareCalculator

  /** The discounted pro-rata price written as one product. */
  lemma DiscountedProRata(m: int, rate: real, discount: bool)
    ensures Discounted(ProRata(m, rate), discount)
         == (if discount then DISCOUNT_FACTOR else 1.0) * (m as real) * rate / 60.0
  {
    var f := if discount then DISCOUNT_FACTOR else 1.0;
    var x := (m as real) * rate;
    assert Discounted(ProRata(m, rate), discount) == f * (x / 60.0);
    assert f * (m as real) * rate == f * x;
  }

  /** More minutes at a non-negative rate never cost less, with the same
      discount flag. */
  lemma ProRataMonotone(m1: int, m2: int, rate: real, discount: bool)
    requires m1 <= m2 && rate >= 0.0
    ensures Discounted(ProRata(m1, rate), discount) <= Discounted(ProRata(m2, rate), discount)
  {
    assert (m2 as real) * rate == (m1 as real) * rate + ((m2 - m1) as real) * rate;
    assert ((m2 - m1) as real) * rate >= 0.0;
    assert ProRata(m1, rate) <= ProRata(m2, rate);
  }

  /** Minutes at an hourly rate are their milliseconds at the same rate. */
  lemma MinutesToMillisPrice(m: int, rate: real)
    ensures ProRata(m, rate) == ((m as real) * 60_000.0) * rate / 3_600_000.0
  {
    assert ((m as real) * 60_000.0) * rate == 60_000.0 * ((m as real) * rate);
  }

  /** Milliseconds at a positive hourly rate: a longer time costs more. */
  lemma ScaleByRate(a: real, b: real, rate: real)
    requires rate > 0.0
    ensures a <= b ==> a * rate / 3_600_000.0 <= b * rate / 3_600_000.0
    ensures a < b ==> a * rate / 3_600_000.0 < b * rate / 3_600_000.0
  {
    assert (b - a) * rate == b * rate - a * rate;
    if a < b {
      assert (b - a) * rate > 0.0;
    }
  }

  /** Billing the whole minutes `m` of a span of `span` milliseconds costs at
      most the exact span at the rate, and less than one minute's worth below
      it. */
  lemma ProRataWithinAMinute(m: int, span: int, rate: real)
    requires rate > 0.0
    requires m * 60_000 <= span < (m + 1) * 60_000
    ensures ((span - 60_000) as real) * rate / 3_600_000.0 < ProRata(m, rate)
    ensures ProRata(m, rate) <= (span as real) * rate / 3_600_000.0
  {
    var billed := (m as real) * 60_000.0;
    var below := (span - 60_000) as real;
    MinutesToMillisPrice(m, rate);
    assert below < billed <= span as real;
    ScaleByRate(billed, span as real, rate);
    ScaleByRate(below, billed, rate);
  }

  /** The same bounds after the discount step, which scales both. */
  lemma TruncationBounds(m: int, span: int, rate: real, discount: bool)
    requires rate > 0.0
    requires m * 60_000 <= span < (m + 1) * 60_000
    ensures Discounted(ProRata(m, rate), discount)
         <= (if discount then DISCOUNT_FACTOR else 1.0) * ((span as real) * rate / 3_600_000.0)
    ensures Discounted(ProRata(m, rate), discount)
         > (if discount then DISCOUNT_FACTOR else 1.0) * (((span - 60_000) as real) * rate / 3_600_000.0)
  {
    var lo := ((span - 60_000) as real) * rate / 3_600_000.0;
    var hi := (span as real) * rate / 3_600_000.0;
    var x := ProRata(m, rate);
    ProRataWithinAMinute(m, span, rate);
    assert lo < x <= hi;
    if discount {
      assert Discounted(x, discount) == x * DISCOUNT_FACTOR;
      assert DISCOUNT_FACTOR * lo < x * DISCOUNT_FACTOR <= DISCOUNT_FACTOR * hi;
    }
  }
}
