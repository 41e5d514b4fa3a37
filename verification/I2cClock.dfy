/**
 The I2C clock divider: from a speed to two counts, into the 16-bit count registers,
 and from the registers back to the speed they give.
 */
module I2cClock {

  const POW16: nat := 0x1_0000
  const POW32: nat := 0x1_0000_0000
  const FAST_MAX: nat := 400_000
  const FAST_MIN: nat := 100_000
  const SKEW: nat := 60  // the fixed difference between half a period and each count

  type U32 = x: int | 0 <= x < POW32

  datatype Config = Config(fast: bool, high: U32, low: U32, hold: U32)

  datatype SetResult = Set(config: Config) | OutOfRange

  /** DivideByZero: the sum of the counts wraps to zero, which the driver does not look for. */
  datatype GetResult = Hz(speed: U32) | BadArgument | DivideByZero

  /** Half the clock period, in controller clocks. */
  function Half(freq: U32, speed: U32): U32
    requires speed > 0
  {
    freq / (speed * 2)
  }

  function SpeedSet(freq: U32, speed: U32): SetResult {
    if speed > FAST_MAX || speed < 1 then OutOfRange
    else
      var half := Half(freq, speed);
      var high, low := (half + SKEW) % POW32, (half - SKEW) % POW32;
      Set(Config(speed > FAST_MIN, high, low, low - low / 2))
  }

  function SpeedGet(freq: U32, c: Config): GetResult {
    if c.low == 0 || c.high == 0 then BadArgument
    else if (c.low + c.high) % POW32 == 0 then DivideByZero
    else Hz(freq / ((c.low + c.high) % POW32))
  }

  /** Writing a configuration to the device and reading it back: the counts are 16 bits wide. */
  function ThroughRegisters(c: Config): Config {
    Config(c.fast, c.high % POW16, c.low % POW16, c.hold % POW16)
  }

  /** Which speeds are allowed, which of them are fast, and how the counts lie about half the period. */
  lemma ConfigMeans(freq: U32, speed: U32)
    ensures SpeedSet(freq, speed).Set? <==> 1 <= speed <= 400_000
    ensures 1 <= speed <= 400_000 ==>
      var c := SpeedSet(freq, speed).config;
      && (c.fast <==> speed > 100_000)
      && (2 * c.hold == c.low || 2 * c.hold == c.low + 1)
      && (60 <= Half(freq, speed) ==> c.low + 60 == Half(freq, speed) == c.high - 60)
      && (60 > Half(freq, speed) ==> c.low == Half(freq, speed) + 0x1_0000_0000 - 60)
  {
    hide Half;
    if 1 <= speed <= FAST_MAX {
      HalfBound(freq, speed);
      var low := (Half(freq, speed) - SKEW) % POW32;
      assert 2 * (low - low / 2) == low || 2 * (low - low / 2) == low + 1;
    }
  }

  /** No count is truncated, and none is zero, exactly when half the period is in this range. */
  lemma CountsFit(freq: U32, speed: U32)
    requires 1 <= speed <= FAST_MAX
    ensures var c := SpeedSet(freq, speed).config;
      ThroughRegisters(c) == c && c.low > 0 && c.high > 0 <==> 60 < Half(freq, speed) <= 65475
  {
    hide Half;
    HalfBound(freq, speed);
    FitExactly(Half(freq, speed));
  }

  lemma HalfBound(freq: U32, speed: U32)
    requires speed > 0
    ensures 2 * Half(freq, speed) <= freq
    ensures Half(freq, speed) == 0 <==> freq < speed * 2
  {
    SmallQuotient(freq, speed * 2);
  }

  lemma SmallQuotient(n: nat, d: nat)
    requires d >= 2
    ensures 2 * (n / d) <= n && (n / d == 0 <==> n < d)
  {
  }

  lemma FitExactly(half: U32)
    requires 2 * half < POW32
    ensures var high, low := (half + SKEW) % POW32, (half - SKEW) % POW32;
      var hold := low - low / 2;
      low % POW16 == low && low > 0 && high % POW16 == high && high > 0 && hold % POW16 == hold
      <==> 60 < half <= 65475
  {
    assert (half + SKEW) % POW32 == half + SKEW;
    if half < SKEW {
      var low := half - SKEW + POW32;
      assert (half - SKEW) % POW32 == low >= POW16;
      assert low % POW16 < POW16;
    } else if half > 65475 {
      assert (half + SKEW) % POW16 < POW16;
    }
  }

  /**
   In that range the speed achieved, through the registers, is the speed asked for or a
   little more: faster by less than one part in half a period.
   */
  lemma SpeedAchieved(freq: U32, speed: U32)
    requires 1 <= speed <= FAST_MAX && 60 < Half(freq, speed) <= 65475
    ensures var c := SpeedSet(freq, speed).config;
      var half := Half(freq, speed);
      && SpeedGet(freq, ThroughRegisters(c)).Hz?
      && var v := SpeedGet(freq, ThroughRegisters(c)).speed;
         speed <= v && v * half < speed * (half + 1)
  {
    CountsFit(freq, speed);
    HalfBound(freq, speed);
    CountsSum(Half(freq, speed));
    Halving(freq, speed, Half(freq, speed));
  }

  /** Dividing by twice the quotient undoes dividing by twice the divisor, up to rounding. */
  lemma Halving(freq: nat, speed: nat, half: nat)
    requires speed > 0 && half == freq / (speed * 2) && half > 0
    ensures var v := freq / (2 * half); speed <= v && v * half < speed * (half + 1)
  {
    var v := freq / (2 * half);
    Quotient(freq, speed * 2);
    Quotient(freq, 2 * half);
    Order(half, v + 1, speed);
    Rescale(speed, half);
    Rescale(half, v);
    Rescale(half, speed);
  }

  lemma Rescale(a: nat, b: nat)
    ensures (a * 2) * b == 2 * (a * b) && (2 * a) * b == 2 * (a * b) && a * b == b * a
    ensures a * (b + 1) == a * b + a && b * (a + 1) == a * b + b
  {
  }

  lemma Quotient(n: nat, d: nat)
    requires d > 0
    ensures d * (n / d) <= n < d * (n / d) + d
  {
  }

  lemma Order(m: nat, a: nat, b: nat)
    ensures a <= b ==> m * a <= m * b
  {
  }

  /** Asking for an allowed speed ends in a division by zero when the clock is too slow for it. */
  lemma TooSlowAClock(freq: U32, speed: U32)
    requires 1 <= speed <= FAST_MAX
    ensures SpeedGet(freq, SpeedSet(freq, speed).config) == DivideByZero <==> freq < speed * 2
  {
    hide Half;
    HalfBound(freq, speed);
    CountsSum(Half(freq, speed));
  }

  /** The two counts add up to the period, whatever wraps. */
  lemma CountsSum(half: U32)
    requires 2 * half < POW32
    ensures var high, low := (half + SKEW) % POW32, (half - SKEW) % POW32;
      (low + high) % POW32 == 2 * half && high > 0 && (half == 0 ==> low > 0)
  {
  }

  /** The speed the registers give, from the counts they hold. */
  lemma GivesSpeed(freq: U32, speed: U32, half: U32, low: nat, high: nat, period: nat, v: nat)
    requires 1 <= speed <= FAST_MAX && half == Half(freq, speed)
    requires low == (half - SKEW) % POW32 % POW16 && high == (half + SKEW) % POW32 % POW16
    requires low > 0 && high > 0 && period == low + high && v == freq / period
    ensures SpeedGet(freq, ThroughRegisters(SpeedSet(freq, speed).config)) == Hz(v)
  {
    hide SpeedSet, SpeedGet, ThroughRegisters, Half;
    RegisterCounts(freq, speed, half);
    FromCounts(freq, ThroughRegisters(SpeedSet(freq, speed).config), period);
  }

  lemma RegisterCounts(freq: U32, speed: U32, half: U32)
    requires 1 <= speed <= FAST_MAX && half == Half(freq, speed)
    ensures SpeedSet(freq, speed).Set?
    ensures var c := ThroughRegisters(SpeedSet(freq, speed).config);
      c.low == (half - SKEW) % POW32 % POW16 && c.high == (half + SKEW) % POW32 % POW16
  {
    hide Half;
  }

  lemma FromCounts(freq: U32, c: Config, period: nat)
    requires 0 < c.low < POW16 && 0 < c.high < POW16 && period == c.low + c.high
    ensures freq / period <= freq && SpeedGet(freq, c) == Hz(freq / period)
  {
    assert period % POW32 == period;
    SmallQuotient(freq, period);
  }

  /** At 50 MHz a request for 100 Hz overflows the registers and gives 468 Hz. */
  lemma SlowOverflow()
    ensures Half(50_000_000, 100) == 250_000
    ensures SpeedGet(50_000_000, ThroughRegisters(SpeedSet(50_000_000, 100).config)) == Hz(468)
  {
    hide SpeedSet, SpeedGet, ThroughRegisters;
    GivesSpeed(50_000_000, 100, 250_000, 53_332, 53_452, 106_784, 468);
  }

  /** At 40 MHz a request for 400 kHz wraps the low count below zero and gives 609 Hz. */
  lemma FastUnderflow()
    ensures Half(40_000_000, 400_000) == 50
    ensures SpeedGet(40_000_000, ThroughRegisters(SpeedSet(40_000_000, 400_000).config)) == Hz(609)
  {
    hide SpeedSet, SpeedGet, ThroughRegisters;
    GivesSpeed(40_000_000, 400_000, 50, 65_526, 110, 65_636, 609);
  }

  /** At 500 kHz the counts for 400 kHz add up to nothing. */
  lemma DividesByZero()
    ensures SpeedGet(500_000, SpeedSet(500_000, 400_000).config) == DivideByZero
  {
    hide SpeedSet, SpeedGet;
    TooSlowAClock(500_000, 400_000);
  }
}
