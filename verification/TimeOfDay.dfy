/**
 Wall-clock time: a time set at one tick and read at a later one. The setting is stored
 as the time at reset, so it may be negative, and reading carries or borrows microseconds.
 */
module TimeOfDay {

  const US: nat := 1_000_000
  const POW64: nat := 0x1_0000_0000_0000_0000
  // Error numbers of the C library.
  const ENOTSUP := 134
  const ENOSYS := 88

  type U32 = x: int | 0 <= x < 0x1_0000_0000
  type U64 = x: int | 0 <= x < POW64

  /** A point in time in microseconds. */
  function Total(sec: int, usec: int): int {
    sec * US + usec
  }

  /** What reading makes of a raw pair: time before zero with a borrow left reads as zero. */
  function Normalise(sec: int, usec: int): (int, int) {
    var total := Total(sec, usec);
    if usec < 0 && total < 0 then (0, 0) else (total / US, total % US)
  }

  function Quotient(n: nat, d: nat): nat
    requires d > 0
  {
    n / d
  }

  /** The microseconds within the second, from a product of 64 bits. */
  function Micros(n: U64, rate: U32): nat
    requires rate > 0
  {
    (n * (US / rate)) % POW64 % US
  }

  /** A time set at tick n0 and read at tick n1. */
  function Read(sec: int, usec: int, n0: U64, n1: U64, rate: U32): (int, int)
    requires rate > 0
  {
    Normalise(sec - Quotient(n0, rate) + Quotient(n1, rate), usec - Micros(n0, rate) + Micros(n1, rate))
  }

  /** A time as settimeofday is given it. */
  predicate IsTime(sec: int, usec: int) {
    sec >= 0 && 0 <= usec < US
  }

  /** A pair that is in range is the only one with its total. */
  lemma Split(sec: int, usec: int, total: int)
    requires 0 <= usec < US && total == Total(sec, usec)
    ensures (sec, usec) == (total / US, total % US)
  {
  }

  /** Reading at the tick of the setting gives the time that was set, at any rate. */
  lemma ReadAtOnce(sec: int, usec: int, n: U64, rate: U32)
    requires rate > 0 && IsTime(sec, usec)
    ensures Read(sec, usec, n, n, rate) == (sec, usec)
  {
  }

  lemma Times(n: nat, q: nat, m: nat, r: nat, u: nat)
    requires n == r * q + m
    ensures n * u == (r * u) * q + m * u
  {
  }

  lemma Below(m: nat, r: nat, u: nat)
    requires m < r && u > 0
    ensures m * u < r * u
  {
  }

  lemma Remainder(q: nat, m: nat)
    requires m < US
    ensures (US * q + m) % US == m
  {
  }

  lemma Division(n: nat, d: nat)
    requires d > 0
    ensures n == d * (n / d) + n % d && n % d < d
  {
  }

  /** Seconds and microseconds together count every tick, when the rate divides a million. */
  lemma TicksCounted(n: U64, rate: U32)
    requires rate > 0 && US % rate == 0 && n * (US / rate) < POW64
    ensures Quotient(n, rate) * US + Micros(n, rate) == n * (US / rate)
  {
    hide Micros, Quotient;
    var u := US / rate;
    Division(US, rate);
    Division(n, rate);
    var q, m := n / rate, n % rate;
    assert n == rate * q + m && rate * u == US;
    Times(n, q, m, rate, u);
    Below(m, rate, u);
    MicrosAre(n, rate, u, q, m * u);
    QuotientIs(n, rate);
  }

  lemma MicrosAre(n: U64, rate: U32, u: nat, q: nat, part: nat)
    requires rate > 0 && u == US / rate && n * u < POW64 && n * u == US * q + part && part < US
    ensures Micros(n, rate) == part
  {
    Modulo(n * u);
    Remainder(q, part);
  }

  lemma Modulo(x: nat)
    requires x < POW64
    ensures x % POW64 == x
  {
  }

  lemma QuotientIs(n: nat, d: nat)
    requires d > 0
    ensures Quotient(n, d) == n / d
  {
  }

  /** The time read later is the time set plus the ticks in between, normalised and never clamped. */
  lemma ReadLater(sec: int, usec: int, n0: U64, n1: U64, rate: U32)
    requires rate > 0 && US % rate == 0 && IsTime(sec, usec)
    requires n0 <= n1 && n1 * (US / rate) < POW64
    ensures var read := Read(sec, usec, n0, n1, rate);
      IsTime(read.0, read.1) && Total(read.0, read.1) == Total(sec, usec) + (n1 - n0) * (US / rate)
  {
    hide Micros, Quotient;
    var u := US / rate;
    Monotone(n0, n1, u);
    TicksCounted(n0, rate);
    TicksCounted(n1, rate);
    var total := Total(sec, usec) + (n1 - n0) * u;
    var s, m := sec - Quotient(n0, rate) + Quotient(n1, rate), usec - Micros(n0, rate) + Micros(n1, rate);
    assert Total(s, m) == total;
    assert total >= 0;
  }

  lemma Monotone(n0: nat, n1: nat, u: nat)
    requires n0 <= n1
    ensures n0 * u <= n1 * u && (n1 - n0) * u == n1 * u - n0 * u && (n1 - n0) * u >= 0
  {
  }

  /** Real time between two ticks, in whole microseconds. */
  function Elapsed(n0: U64, n1: U64, rate: U32): int
    requires rate > 0
  {
    (n1 - n0) * US / rate
  }

  /** Every time set reads as that time plus the real time since, while products fit 64 bits. */
  ghost predicate KeepsTime(rate: U32)
    requires rate > 0
  {
    forall sec: int, usec: int, n0: U64, n1: U64 {:trigger Read(sec, usec, n0, n1, rate)} ::
      IsTime(sec, usec) && n0 <= n1 && n1 * (US / rate) < POW64 ==>
        var read := Read(sec, usec, n0, n1, rate);
        Total(read.0, read.1) == Total(sec, usec) + Elapsed(n0, n1, rate)
  }

  /** The clock keeps time at exactly the rates that divide a million. */
  lemma KeepsTimeIff(rate: U32)
    requires rate > 0
    ensures KeepsTime(rate) <==> US % rate == 0
  {
    hide Read, Elapsed;
    if US % rate == 0 {
      forall sec: int, usec: int, n0: U64, n1: U64 {:trigger Read(sec, usec, n0, n1, rate)}
        | IsTime(sec, usec) && n0 <= n1 && n1 * (US / rate) < POW64
        ensures var read := Read(sec, usec, n0, n1, rate);
          Total(read.0, read.1) == Total(sec, usec) + Elapsed(n0, n1, rate)
      {
        ReadLater(sec, usec, n0, n1, rate);
        WholeTicks(n0, n1, rate);
      }
    } else if rate < US {
      FirstSecond(rate);
      OneSecond(rate);
      Breaks(rate, rate);
    } else {
      LastTick(rate);
      AlmostASecond(rate);
      Breaks(rate - 1, rate);
    }
  }

  lemma Breaks(n: U64, rate: U32)
    requires rate > 0 && n * (US / rate) < POW64
    requires Total(Read(0, 0, 0, n, rate).0, Read(0, 0, 0, n, rate).1) != Elapsed(0, n, rate)
    ensures !KeepsTime(rate)
  {
    hide Read, Elapsed;
    assert IsTime(0, 0);
  }

  lemma WholeTicks(n0: U64, n1: U64, rate: U32)
    requires rate > 0 && US % rate == 0 && n0 <= n1
    ensures Elapsed(n0, n1, rate) == (n1 - n0) * (US / rate)
  {
    var n: nat, u := n1 - n0, US / rate;
    Division(US, rate);
    Regroup(n, rate, u);
    Exactly(n * US, rate, n * u);
  }

  lemma Regroup(n: nat, r: nat, u: nat)
    ensures n * (r * u) == r * (n * u)
  {
  }

  lemma Exactly(n: nat, d: nat, q: nat)
    requires d > 0 && n == d * q
    ensures n / d == q
  {
    Bracket(n, d, q);
  }

  lemma Order(m: nat, a: nat, b: nat)
    ensures a <= b ==> m * a <= m * b
  {
  }

  lemma OneSecond(rate: U32)
    requires rate > 0
    ensures Elapsed(0, rate, rate) == US
  {
    Exactly(rate * US, rate, US);
  }

  /** Faster than a million ticks a second, the last tick of the first second still reads as nothing. */
  lemma LastTick(rate: U32)
    requires rate > US
    ensures US / rate == 0 && Read(0, 0, 0, rate - 1, rate) == (0, 0)
  {
    hide Micros, Quotient, Normalise;
    Nothing(US, rate);
    Nothing(rate - 1, rate);
    Nothing(0, rate);
    MicrosOf(0, rate, 0);
    MicrosOf(rate - 1, rate, 0);
    InRange(0, 0);
  }

  lemma Nothing(n: nat, d: nat)
    requires n < d
    ensures n / d == 0 && Quotient(n, d) == 0
  {
  }

  lemma AlmostASecond(rate: U32)
    requires rate > US
    ensures Elapsed(0, rate - 1, rate) == US - 1
  {
    var n := (rate - 1) * US;
    assert n == rate * (US - 1) + (rate - US);
    Bracket(n, rate, US - 1);
  }

  lemma Bracket(n: nat, d: nat, q: nat)
    requires d * q <= n < d * q + d
    ensures d > 0 && n / d == q
  {
    Division(n, d);
    if n / d < q {
      Order(d, n / d + 1, q);
    } else if q < n / d {
      Order(d, q + 1, n / d);
    }
  }

  /** Slower than that and not dividing it, the first whole second already reads as more than a second. */
  lemma FirstSecond(rate: U32)
    requires 0 < rate < US && US % rate != 0
    ensures 0 < rate * (US / rate) < US
    ensures Read(0, 0, 0, rate, rate) == (1, rate * (US / rate))
  {
    hide Micros, Quotient, Normalise;
    Division(US, rate);
    Whole(rate);
    MicrosOf(0, rate, US / rate);
    MicrosOf(rate, rate, US / rate);
    InRange(1, rate * (US / rate));
  }

  lemma InRange(sec: nat, usec: nat)
    requires usec < US
    ensures Normalise(sec, usec) == (sec, usec)
  {
  }

  lemma Whole(r: nat)
    requires r > 0
    ensures Quotient(r, r) == 1 && Quotient(0, r) == 0
  {
  }

  lemma MicrosOf(n: U64, rate: U32, u: nat)
    requires rate > 0 && u == US / rate && n * u < US
    ensures Micros(n, rate) == n * u
  {
  }

  /** Three ticks a second: the clock runs backwards, and a time just set to zero is clamped. */
  lemma RunsBackwards()
    ensures Read(10, 0, 3, 4, 3) == (9, 333_333)
    ensures Read(0, 0, 3, 4, 3) == (0, 0)
  {
  }

  class Timeval {
    var sec: int
    var usec: int
  }

  class Timezone {
    var minutesWest: int
    var dstTime: int
  }

  class WallClock {
    var nticks: U64
    var tickRate: U32
    var errno: int
    const resetTime: Timeval
    const timezone: Timezone

    constructor ()
      ensures fresh(resetTime) && fresh(timezone)
      ensures tickRate == 0 && nticks == 0
      ensures resetTime.sec == resetTime.usec == timezone.minutesWest == timezone.dstTime == 0
    {
      nticks, tickRate, errno := 0, 0, 0;
      resetTime := new Timeval;
      timezone := new Timezone;
      new;
      resetTime.sec, resetTime.usec := 0, 0;
      timezone.minutesWest, timezone.dstTime := 0, 0;
    }

    method SetTimeOfDay(t: Timeval, tz: Timezone) returns (r: int)
      modifies resetTime, timezone, `errno
      ensures tickRate == 0 ==> r == -1 && errno == 88 && unchanged(resetTime) && unchanged(timezone)
      ensures tickRate > 0 ==> r == 0 && errno == old(errno)
      ensures tickRate > 0 ==> resetTime.sec == old(t.sec) - Quotient(nticks, tickRate)
      ensures tickRate > 0 ==> resetTime.usec == old(t.usec) - Micros(nticks, tickRate)
      ensures tickRate > 0 ==>
        timezone.minutesWest == old(tz.minutesWest) && timezone.dstTime == old(tz.dstTime)
    {
      if tickRate > 0 {
        resetTime.sec := t.sec - nticks / tickRate;
        resetTime.usec := t.usec - (nticks * (US / tickRate)) % POW64 % US;
        timezone.minutesWest := tz.minutesWest;
        timezone.dstTime := tz.dstTime;
        return 0;
      }
      errno := ENOSYS;
      return -1;
    }

    method GetTimeOfDay(t: Timeval, tz: Timezone?) returns (r: int)
      modifies t, if tz == null then {} else {tz}
      ensures tickRate == 0 ==> r == -134 && unchanged(t) && (tz != null ==> unchanged(tz))
      ensures tickRate > 0 ==> r == 0
      ensures tickRate > 0 ==> (t.sec, t.usec) == Normalise(
        old(resetTime.sec) + Quotient(nticks, tickRate), old(resetTime.usec) + Micros(nticks, tickRate))
      ensures tickRate > 0 && tz != null ==>
        tz.minutesWest == timezone.minutesWest && tz.dstTime == timezone.dstTime
    {
      if tickRate > 0 {
        t.sec := resetTime.sec + nticks / tickRate;
        t.usec := resetTime.usec + (nticks * (US / tickRate)) % POW64 % US;
        Carry(t);
        if tz != null {
          tz.minutesWest := timezone.minutesWest;
          tz.dstTime := timezone.dstTime;
        }
        return 0;
      }
      return -ENOTSUP;
    }

    /** The borrow loop and the carry loop. */
    static method Carry(t: Timeval)
      modifies t
      ensures (t.sec, t.usec) == Normalise(old(t.sec), old(t.usec))
    {
      ghost var total := Total(t.sec, t.usec);
      while t.usec < 0
        invariant Total(t.sec, t.usec) == total
        invariant t.usec == old(t.usec) || (old(t.usec) < 0 && t.usec < US && t.sec >= 0)
        decreases -t.usec
      {
        if t.sec <= 0 {
          t.sec, t.usec := 0, 0;
          break;
        } else {
          t.sec := t.sec - 1;
          t.usec := t.usec + US;
        }
      }
      ghost var sum := Total(t.sec, t.usec);
      while t.usec >= US
        invariant t.usec >= 0 && Total(t.sec, t.usec) == sum
        decreases t.usec
      {
        t.sec := t.sec + 1;
        t.usec := t.usec - US;
      }
      Split(t.sec, t.usec, sum);
    }

    method Pass(ticks: nat)
      requires nticks + ticks < POW64
      modifies `nticks
      ensures nticks == old(nticks) + ticks
    {
      nticks := nticks + ticks;
    }

    /** Setting the time, letting ticks pass and reading it. */
    method SetAndRead(t: Timeval, tz: Timezone, ticks: nat, out: Timeval)
      requires tickRate > 0 && US % tickRate == 0 && IsTime(t.sec, t.usec)
      requires (nticks + ticks) * (US / tickRate) < POW64
      requires nticks + ticks < POW64
      modifies this, resetTime, timezone, out
      ensures tickRate == old(tickRate) && IsTime(out.sec, out.usec)
      ensures Total(out.sec, out.usec) == Total(old(t.sec), old(t.usec)) + ticks * (US / tickRate)
    {
      ghost var n := nticks;
      ghost var sec, usec := t.sec, t.usec;
      var r := SetTimeOfDay(t, tz);
      Pass(ticks);
      r := GetTimeOfDay(out, null);
      ReadLater(sec, usec, n, nticks, tickRate);
    }
  }
}
