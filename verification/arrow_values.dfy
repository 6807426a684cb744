/** Value conversions of the Arrow file writer: a Ruby time value arrives as
    unsigned 64-bit seconds and nanoseconds and is stored in the unit the
    column was declared with; the per-column min/max statistics; and the
    decimal text of a 128-bit statistic. */
module ArrowValues {
  import opened Common

  const SECS_PER_DAY: nat := 86400

  /** The units of `Time[...]` and `Timestamp[...]` columns. */
  datatype Unit = Sec | Ms | Us | Ns

  /** Ticks of the unit per second. */
  function PerSec(u: Unit): (r: nat)
    ensures r >= 1 && 1_000_000_000 % r == 0
  {
    match u
    case Sec => 1
    case Ms => 1000
    case Us => 1_000_000
    case Ns => 1_000_000_000
  }

  /** Nanoseconds per tick. */
  function NsPerTick(u: Unit): (r: nat)
    ensures r >= 1 && r * PerSec(u) == 1_000_000_000
  {
    1_000_000_000 / PerSec(u)
  }

  // ------------------------------------------------------------------
  // put_ruby_{date,time,timestamp}_*_value
  // ------------------------------------------------------------------

  /** `put_ruby_date_day_value`: days since the epoch, cut to 32 bits. */
  function DateDay(sec: u64): u32
  {
    WrapU(sec / SECS_PER_DAY, 32)
  }

  /** `put_ruby_time_*_value`: the time of day in the unit; the second and
      millisecond forms are 32-bit, the others 64-bit. */
  function TimeValue(u: Unit, sec: u64, nsec: u64): nat
  {
    match u
    case Sec => WrapU(sec % SECS_PER_DAY, 32)
    case Ms => WrapU((sec % SECS_PER_DAY) * 1000 + nsec / 1_000_000, 32)
    case Us => WrapU((sec % SECS_PER_DAY) * 1_000_000 + nsec / 1000, 64)
    case Ns => WrapU((sec % SECS_PER_DAY) * 1_000_000_000 + nsec, 64)
  }

  /** `put_ruby_timestamp_*_value`: ticks since the epoch in 64 bits; the
      second form stores the seconds alone. */
  function TimestampValue(u: Unit, sec: u64, nsec: u64): nat
  {
    match u
    case Sec => sec
    case Ms => WrapU(sec * 1000 + nsec / 1_000_000, 64)
    case Us => WrapU(sec * 1_000_000 + nsec / 1000, 64)
    case Ns => WrapU(sec * 1_000_000_000 + nsec, 64)
  }

  /** A well-formed time value: fewer than a second's worth of nanoseconds. */
  predicate ValidNsec(nsec: u64) { nsec < 1_000_000_000 }

  /** A time value splits back into the seconds of the day and the sub-second
      part truncated to the unit; it is always within one day. */
  lemma TimeValueDecodes(u: Unit, sec: u64, nsec: u64)
    requires ValidNsec(nsec)
    ensures var v := TimeValue(u, sec, nsec);
      && v < SECS_PER_DAY * PerSec(u)
      && v / PerSec(u) == sec % SECS_PER_DAY
      && v % PerSec(u) == (if u == Sec then 0 else nsec / NsPerTick(u))
  {
    var d := sec % SECS_PER_DAY;
    var t := if u == Sec then 0 else nsec / NsPerTick(u);
    SubSecondBelow(u, nsec);
    TimeValueScaled(u, sec, nsec);
    DivModUnique(d, u, t);
    MulStep(d, SECS_PER_DAY, PerSec(u), t);
  }

  /** Within a day no time value wraps. */
  lemma TimeValueScaled(u: Unit, sec: u64, nsec: u64)
    requires ValidNsec(nsec)
    ensures TimeValue(u, sec, nsec)
      == (sec % SECS_PER_DAY) * PerSec(u) + (if u == Sec then 0 else nsec / NsPerTick(u))
  {
    var d := sec % SECS_PER_DAY;
    match u
    case Sec =>
    case Ms =>
      assert d * 1000 + nsec / 1_000_000 < TWO32;
    case Us =>
      assert d * 1_000_000 + nsec / 1000 < TWO64;
    case Ns =>
      assert d * 1_000_000_000 + nsec < TWO64;
  }

  /** While the product fits in 64 bits, a timestamp splits back into its
      seconds and the sub-second part truncated to the unit. */
  lemma TimestampValueDecodes(u: Unit, sec: u64, nsec: u64)
    requires ValidNsec(nsec)
    requires (sec + 1) * PerSec(u) <= TWO64
    ensures var v := TimestampValue(u, sec, nsec);
      && v / PerSec(u) == sec
      && v % PerSec(u) == (if u == Sec then 0 else nsec / NsPerTick(u))
  {
    var t := if u == Sec then 0 else nsec / NsPerTick(u);
    SubSecondBelow(u, nsec);
    TimestampValueScaled(u, sec, nsec);
    DivModUnique(sec, u, t);
  }

  /** While the product fits, no timestamp wraps. */
  lemma TimestampValueScaled(u: Unit, sec: u64, nsec: u64)
    requires ValidNsec(nsec)
    requires (sec + 1) * PerSec(u) <= TWO64
    ensures TimestampValue(u, sec, nsec) == sec * PerSec(u) + (if u == Sec then 0 else nsec / NsPerTick(u))
  {
    match u
    case Sec =>
    case Ms =>
      assert sec * 1000 + nsec / 1_000_000 < (sec + 1) * 1000;
    case Us =>
      assert sec * 1_000_000 + nsec / 1000 < (sec + 1) * 1_000_000;
    case Ns =>
      assert sec * 1_000_000_000 + nsec < (sec + 1) * 1_000_000_000;
  }

  /** The sub-second part, truncated to the unit, is less than one second's
      worth of ticks. */
  lemma SubSecondBelow(u: Unit, nsec: u64)
    requires ValidNsec(nsec)
    ensures (if u == Sec then 0 else nsec / NsPerTick(u)) < PerSec(u)
  {
  }

  lemma MulStep(a: nat, c: nat, b: nat, t: nat)
    requires a < c && t < b
    ensures a * b + t < c * b
  {
    assert (a + 1) * b <= c * b;
  }

  /** Division by the unit's tick rate undoes the scaling. */
  lemma DivModUnique(a: nat, u: Unit, t: nat)
    requires t < PerSec(u)
    ensures (a * PerSec(u) + t) / PerSec(u) == a && (a * PerSec(u) + t) % PerSec(u) == t
  {
    match u
    case Sec =>
    case Ms =>
      assert (a * 1000 + t) / 1000 == a;
    case Us =>
      assert (a * 1_000_000 + t) / 1_000_000 == a;
    case Ns =>
      assert (a * 1_000_000_000 + t) / 1_000_000_000 == a;
  }

  /** `put_ruby_date_ms_value` as written: seconds times 10^6 plus
      microseconds, a microsecond count in a millisecond column. */
  function DateMsAsWritten(sec: u64, nsec: u64): nat
  {
    WrapU(sec * 1_000_000 + nsec / 1000, 64)
  }

  /** A `Date[ms]` value of one day after the epoch, read as milliseconds,
      lands a thousand days later than the `Date[day]` value of the same
      time. */
  lemma DateMsAsWrittenIsMicroseconds()
    ensures DateMsAsWritten(SECS_PER_DAY, 0) / (SECS_PER_DAY * 1000) == 1000
    ensures DateDay(SECS_PER_DAY) == 1
  {
  }

  /** `Date[ms]` with the millisecond scale the Arrow `DateUnit.MILLISECOND`
      calls for. */
  function DateMs(sec: u64, nsec: u64): nat
  {
    WrapU(sec * 1000 + nsec / 1_000_000, 64)
  }

  /** The millisecond date and the day date agree on the day, and the
      millisecond date is the millisecond timestamp. */
  lemma DateMsAgreesWithDay(sec: u64, nsec: u64)
    requires ValidNsec(nsec)
    requires sec < SECS_PER_DAY * TWO32
    ensures DateMs(sec, nsec) / (SECS_PER_DAY * 1000) == DateDay(sec)
    ensures DateMs(sec, nsec) == TimestampValue(Ms, sec, nsec)
  {
    var v := sec * 1000 + nsec / 1_000_000;
    assert v < TWO64;
    assert sec / SECS_PER_DAY < TWO32;
    var q := sec / SECS_PER_DAY;
    var r := sec % SECS_PER_DAY;
    assert sec == q * SECS_PER_DAY + r;
    assert v == q * (SECS_PER_DAY * 1000) + (r * 1000 + nsec / 1_000_000);
    assert r * 1000 + nsec / 1_000_000 < SECS_PER_DAY * 1000;
  }

  // ------------------------------------------------------------------
  // STAT_UPDATES
  // ------------------------------------------------------------------

  /** A column's `stat_datum`: whether a value has been seen, and the
      smallest and largest so far. */
  datatype Stat = Stat(valid: bool, min: int, max: int)

  /** `STAT_UPDATES`: the first value sets both bounds, later ones widen
      them; a column without statistics keeps its state. */
  function StatUpdate(enabled: bool, s: Stat, v: int): (r: Stat)
    ensures !enabled ==> r == s
    ensures enabled ==> r.valid
    ensures enabled && !s.valid ==> r.min == v == r.max
    ensures enabled && s.valid ==> r.min <= v <= r.max && r.min <= s.min && s.max <= r.max
    ensures enabled && s.valid ==> (r.min == s.min || r.min == v) && (r.max == s.max || r.max == v)
  {
    if !enabled then s
    else if !s.valid then Stat(true, v, v)
    else Stat(true, if s.min > v then v else s.min, if s.max < v then v else s.max)
  }

  /** The statistics after a column received `vals`, from the initial
      invalid state. */
  function StatAfter(enabled: bool, vals: seq<int>): Stat
  {
    if vals == [] then Stat(false, 0, 0)
    else StatUpdate(enabled, StatAfter(enabled, vals[..|vals| - 1]), vals[|vals| - 1])
  }

  /** After a stream of values the statistics are the exact minimum and
      maximum of the stream: both are values of the stream and bound every
      value. A column without statistics stays invalid. */
  lemma {:induction false} StatAfterBounds(enabled: bool, vals: seq<int>)
    ensures var s := StatAfter(enabled, vals);
      && (s.valid <==> enabled && vals != [])
      && (s.valid ==> s.min in vals && s.max in vals)
      && (s.valid ==> forall k :: 0 <= k < |vals| ==> s.min <= vals[k] <= s.max)
    decreases |vals|
  {
    if vals != [] {
      var init := vals[..|vals| - 1];
      StatAfterBounds(enabled, init);
      assert vals == init + [vals[|vals| - 1]];
      if enabled && init != [] {
        var s0 := StatAfter(enabled, init);
        assert s0.min in init && s0.max in init;
        forall k | 0 <= k < |vals|
          ensures StatAfter(enabled, vals).min <= vals[k] <= StatAfter(enabled, vals).max
        {
          if k < |init| {
            assert vals[k] == init[k];
          }
        }
      }
    }
  }

  // ------------------------------------------------------------------
  // write_ruby_int128_stat
  // ------------------------------------------------------------------

  const INT128_MIN: int := -TWO127

  /** The text the source prints for `INT128_MIN`, which is the decimal form
      of -2^127. */
  const INT128_MIN_TEXT: string := "-170141183460469231731687303715884105728"

  /** The character `'0' + dig`. */
  function DigitChar(dig: int): char
    requires -9 <= dig <= 9
  {
    (('0' as int) + dig) as char
  }

  /** The digit loop: `dig = ival % 10; *--pos = '0' + dig; ival /= 10`
      until `ival` is 0, with C's truncating division. */
  function DigitLoop(n: int): (s: string)
    ensures |s| >= 1
    decreases if n >= 0 then n else -n
  {
    var dig := CMod(n, 10);
    var q := CDiv(n, 10);
    (if q == 0 then "" else DigitLoop(q)) + [DigitChar(dig)]
  }

  /** Two's-complement negation of a 128-bit value (the C negation of
      `INT128_MIN` overflows; two's-complement hardware gives it back). */
  function Negate128(v: int): (r: int)
    requires IsInt128(v)
    ensures IsInt128(r)
    ensures v != INT128_MIN ==> r == -v
  {
    if v == INT128_MIN then INT128_MIN else -v
  }

  /** `write_ruby_int128_stat` as written: the special case tests `~ival == 0`,
      that is `ival == -1`. */
  function Int128TextAsWritten(v: int): string
    requires IsInt128(v)
  {
    if -v - 1 == 0 then INT128_MIN_TEXT
    else if v < 0 then "-" + DigitLoop(Negate128(v))
    else DigitLoop(v)
  }

  /** The decimal text of any 128-bit value: a minus sign for negatives and
      the digits of the magnitude. The special case the source meant for
      `INT128_MIN` only avoids the overflow of `-ival`, which unbounded
      integers do not have. */
  function Int128Text(v: int): string
    requires IsInt128(v)
  {
    if v < 0 then "-" + DigitLoop(-v) else DigitLoop(v)
  }

  /** As written, -1 is printed as the minimum value. */
  lemma Int128AsWrittenMinusOne()
    ensures Int128TextAsWritten(-1) == INT128_MIN_TEXT
    ensures Int128Text(-1) == "-1"
  {
    assert DigitLoop(1) == [DigitChar(1)];
  }

  /** As written, the real minimum goes through the overflowing negation and
      the digit loop on a negative value, whose last character is
      `'0' - 8`, not a digit. */
  lemma Int128AsWrittenMinimum()
    ensures var s := Int128TextAsWritten(INT128_MIN);
      |s| >= 2 && s[|s| - 1] == DigitChar(-8) && !IsDigit(s[|s| - 1])
  {
    assert CMod(INT128_MIN, 10) == -8;
  }

  /** Everywhere else the writer as written already prints the decimal text. */
  lemma Int128AsWrittenElsewhere(v: int)
    requires IsInt128(v) && v != -1 && v != INT128_MIN
    ensures Int128TextAsWritten(v) == Int128Text(v)
  {
  }

  function DigitValue(c: char): (d: nat)
    requires IsDigit(c)
    ensures d <= 9 && DigitChar(d) == c
  {
    c as int - '0' as int
  }

  /** The value of a string of decimal digits. */
  function ParseDigits(s: string): nat
    requires forall k :: 0 <= k < |s| ==> IsDigit(s[k])
  {
    if s == [] then 0 else ParseDigits(s[..|s| - 1]) * 10 + DigitValue(s[|s| - 1])
  }

  /** An optional minus sign followed by decimal digits. */
  predicate SignedDecimal(s: string)
  {
    s != [] && (forall k :: 1 <= k < |s| ==> IsDigit(s[k])) && (s[0] == '-' || IsDigit(s[0]))
  }

  /** The value of an optionally signed decimal text. */
  function ParseInt(s: string): int
    requires SignedDecimal(s)
  {
    if s[0] == '-' then -(ParseDigits(s[1..]) as int) else ParseDigits(s)
  }

  /** The digit loop on a non-negative value writes its decimal digits. */
  lemma {:induction false} DigitLoopDigits(n: nat)
    ensures forall k :: 0 <= k < |DigitLoop(n)| ==> IsDigit(DigitLoop(n)[k])
    ensures ParseDigits(DigitLoop(n)) == n
    ensures n > 0 ==> DigitLoop(n)[0] != '0'
    decreases n
  {
    var q := n / 10;
    var s := DigitLoop(n);
    if q != 0 {
      DigitLoopDigits(q);
      assert s == DigitLoop(q) + [DigitChar(n % 10)];
      assert s[..|s| - 1] == DigitLoop(q);
    } else {
      assert s == [DigitChar(n % 10)];
      assert s[..0] == [];
    }
  }

  /** Reading the printed statistic back gives the value. */
  lemma Int128TextRoundTrip(v: int)
    requires IsInt128(v)
    ensures SignedDecimal(Int128Text(v)) && ParseInt(Int128Text(v)) == v
  {
    if v < 0 {
      NegativeTextParses(-v);
    } else {
      NonNegativeTextParses(v);
    }
  }

  lemma NonNegativeTextParses(n: nat)
    ensures SignedDecimal(DigitLoop(n)) && ParseInt(DigitLoop(n)) == n
  {
    DigitLoopDigits(n);
  }

  lemma NegativeTextParses(n: nat)
    requires n > 0
    ensures SignedDecimal("-" + DigitLoop(n)) && ParseInt("-" + DigitLoop(n)) == -(n as int)
  {
    DigitLoopDigits(n);
    var s := "-" + DigitLoop(n);
    assert s[1..] == DigitLoop(n);
    forall k | 1 <= k < |s|
      ensures IsDigit(s[k])
    {
      assert s[k] == DigitLoop(n)[k - 1];
    }
  }
}
