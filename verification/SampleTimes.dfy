/** The time of a sample: rates are reals, the leap second list is empty. */
module SampleTimes {
  const NSTMODULUS: int := 1_000_000_000

  /** ms_sampletime: a positive rate is in samples per second, a negative one a period in seconds. */
  function SampleTime(time: int, offset: int, samprate: real): int {
    time +
    if offset > 0 && samprate > 0.0 then (offset as real / samprate * NSTMODULUS as real + 0.5).Floor
    else if offset > 0 && samprate < 0.0 then (offset as real * -samprate * NSTMODULUS as real + 0.5).Floor
    else 0
  }

  /** The sample period in nanoseconds, 0 for a zero rate. */
  function Period(samprate: real): int {
    if samprate > 0.0 then (NSTMODULUS as real / samprate).Floor
    else if samprate < 0.0 then (NSTMODULUS as real * -samprate).Floor
    else 0
  }

  /** msr3_sampratehz */
  function Hertz(samprate: real): real {
    if samprate < 0.0 then -1.0 / samprate else samprate
  }

  lemma PositiveQuotient(a: real, b: real)
    requires a >= 0.0 && b > 0.0
    ensures a / b >= 0.0
  {}

  lemma PositiveProduct(a: real, b: real)
    requires a >= 0.0 && b >= 0.0
    ensures a * b >= 0.0
  {}

  /** Samples do not go back in time. */
  lemma SampleTimeForward(time: int, offset: int, samprate: real)
    ensures SampleTime(time, offset, samprate) >= time
  {
    if offset > 0 && samprate > 0.0 {
      PositiveQuotient(offset as real, samprate);
    } else if offset > 0 && samprate < 0.0 {
      PositiveProduct(offset as real, -samprate);
    }
  }

  lemma PeriodNotNegative(samprate: real)
    ensures Period(samprate) >= 0
  {
    if samprate > 0.0 {
      PositiveQuotient(NSTMODULUS as real, samprate);
    } else if samprate < 0.0 {
      PositiveProduct(NSTMODULUS as real, -samprate);
    }
  }

  // ----------------------------------------------------------------- what the times mean

  function Abs(x: real): real {
    if x < 0.0 then -x else x
  }

  /**
   * The time of sample `offset` is that of the first and `offset` sample periods, rounded to
   * nanoseconds: by rates (samples per second) and by periods (seconds, negated).
   */
  predicate OnTime(time: int, offset: int, samprate: real, t: int) {
    if offset <= 0 || samprate == 0.0 then t == time
    else if samprate > 0.0 then 2.0 * Abs((t - time) as real * samprate - offset as real * 1000000000.0) <= samprate
    else 2.0 * Abs((t - time) as real + offset as real * samprate * 1000000000.0) <= 1.0
  }

  lemma SampleOnTime(time: int, offset: int, samprate: real)
    ensures OnTime(time, offset, samprate, SampleTime(time, offset, samprate))
  {
    var t := SampleTime(time, offset, samprate);
    if offset > 0 && samprate > 0.0 {
      var x := offset as real / samprate * NSTMODULUS as real;
      Rounded(x);
      QuotientTimes(offset as real, samprate);
      RoundedProduct((t - time) as real, x, samprate, offset as real * 1000000000.0);
    } else if offset > 0 && samprate < 0.0 {
      var x := offset as real * -samprate * NSTMODULUS as real;
      Rounded(x);
      NegatedProduct(offset as real, samprate);
    }
  }

  lemma Rounded(x: real)
    ensures -0.5 <= (x + 0.5).Floor as real - x <= 0.5
  {}

  lemma QuotientTimes(a: real, r: real)
    requires r > 0.0
    ensures a / r * NSTMODULUS as real * r == a * 1000000000.0
  {
    var q := a / r;
    assert q * r == a;
    Commute(q, NSTMODULUS as real, r);
  }

  lemma Commute(a: real, b: real, c: real)
    ensures a * b * c == a * c * b
  {}

  lemma NegatedProduct(a: real, b: real)
    ensures a * -b * NSTMODULUS as real == -(a * b * 1000000000.0)
  {
    var c := a * b;
    assert a * -b == -c;
  }

  /** A rounded number times a rate is off by half a rate at most. */
  lemma RoundedProduct(d: real, x: real, r: real, y: real)
    requires r > 0.0 && -0.5 <= d - x <= 0.5 && x * r == y
    ensures 2.0 * Abs(d * r - y) <= r
  {
    var low, high := x + -0.5, x + 0.5;
    Scale(d, high, r);
    Scale(low, d, r);
    Distribute(x, 0.5, r);
    Distribute(x, -0.5, r);
    assert low * r == y + -0.5 * r && high * r == y + 0.5 * r;
  }

  lemma Distribute(x: real, h: real, r: real)
    ensures (x + h) * r == x * r + h * r
  {}

  lemma Scale(a: real, b: real, r: real)
    requires a <= b && r > 0.0
    ensures a * r <= b * r
  {}

  /** A rate and the period that belongs to it give the same times. */
  lemma RateAndPeriod(time: int, offset: int, samprate: real)
    requires samprate > 0.0
    ensures SampleTime(time, offset, samprate) == SampleTime(time, offset, -1.0 / samprate)
    ensures Period(samprate) == Period(-1.0 / samprate) && Hertz(-1.0 / samprate) == samprate
  {
    PositiveQuotient(1.0, samprate);
    assert -1.0 / samprate < 0.0 && -(-1.0 / samprate) == 1.0 / samprate;
    assert offset as real * (1.0 / samprate) == offset as real / samprate;
    assert NSTMODULUS as real * (1.0 / samprate) == NSTMODULUS as real / samprate;
    assert -1.0 / (-1.0 / samprate) == samprate;
  }

  /** The period is the largest number of nanoseconds that the rate allows, and none for a rate of zero. */
  lemma PeriodIs(samprate: real)
    ensures samprate > 0.0 ==> Period(samprate) as real * samprate <= 1000000000.0 < Period(samprate) as real * samprate + samprate
    ensures samprate < 0.0 ==> Period(samprate) as real <= -samprate * 1000000000.0 < (Period(samprate) + 1) as real
    ensures samprate == 0.0 ==> Period(samprate) == 0
  {
    if samprate > 0.0 {
      PositivePeriod(samprate);
    } else if samprate < 0.0 {
      var x := NSTMODULUS as real * -samprate;
      assert x == -samprate * 1000000000.0;
    }
  }

  lemma PositivePeriod(r: real)
    requires r > 0.0
    ensures Period(r) as real * r <= 1000000000.0 < Period(r) as real * r + r
  {
    hide Period;
    var x := Quotient(r);
    WithinOne(Period(r) as real, x, r);
    OfThousandMillions(Period(r) as real, x, r);
  }

  lemma Quotient(r: real) returns (x: real)
    requires r > 0.0
    ensures Product(x, r) == 1000000000.0 && Period(r) as real <= x < Period(r) as real + 1.0
  {
    x := NSTMODULUS as real / r;
  }

  function Product(a: real, b: real): real {
    a * b
  }

  lemma OfThousandMillions(p: real, x: real, r: real)
    requires Product(x, r) == 1000000000.0 && Product(p, r) <= Product(x, r) < Product(p, r) + r
    ensures p * r <= 1000000000.0 < p * r + r
  {
    var y := p * r;
    assert Product(p, r) == y;
    hide Product;
  }

  lemma WithinOne(p: real, x: real, r: real)
    requires r > 0.0 && p <= x < p + 1.0
    ensures Product(p, r) <= Product(x, r) < Product(p, r) + r
  {
    hide Product;
    ProductGrows(x, p + 1.0, r);
    OneMore(p, r);
    if p < x {
      ProductGrows(p, x, r);
    }
  }

  lemma ProductGrows(a: real, b: real, r: real)
    requires a < b && r > 0.0
    ensures Product(a, r) < Product(b, r)
  {}

  lemma OneMore(p: real, r: real)
    ensures Product(p + 1.0, r) == Product(p, r) + r
  {}

  /** Samples per second: a period of so many seconds, negated, holds one of them. */
  lemma HertzIs(samprate: real)
    ensures samprate >= 0.0 ==> Hertz(samprate) == samprate
    ensures samprate < 0.0 ==> Hertz(samprate) * -samprate == 1.0
  {}
}
