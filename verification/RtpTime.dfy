/** Conversions between durations, RTP clock units and NTP time, with their
    128-bit intermediate results, and exactly what they lose. */
module RtpTime {
  import opened Basics
  import opened Division

  const SECOND := 1_000_000_000
  const TWO_63 := 0x8000_0000_0000_0000
  const TWO_64 := 0x1_0000_0000_0000_0000

  type Int64 = x: int | -TWO_63 <= x < TWO_63
  type U64 = x: int | 0 <= x < TWO_64

  // ---------------------------------------------------------------- 128-bit arithmetic

  /** The quotient of the 128-bit number hi:lo by y; panics if it does not fit in 64 bits. */
  function Div64(hi: nat, lo: U64, y: U64): Outcome<int> {
    if y <= hi then Panic else Value((hi * TWO_64 + lo) / y)
  }

  /** Reading 64 bits as a signed number. */
  function Signed(q: int): int {
    if q < TWO_63 then q else q - TWO_64
  }

  /** The product p divided by den, by way of its two 64-bit halves. */
  function Quotient(p: nat, den: U64): Outcome<int> {
    var q := Div64(p / TWO_64, p % TWO_64, den);
    if q.Panic? then Panic else Value(Signed(q.value))
  }

  /** Exactly when the division overflows, and what it yields otherwise. */
  lemma QuotientMeaning(p: nat, den: U64)
    ensures Quotient(p, den).Panic? <==> p >= den * TWO_64
    ensures den > 0 && p < den * TWO_63 ==> Quotient(p, den) == Value(p / den)
  {
    assert p == p / TWO_64 * TWO_64 + p % TWO_64;
    if den > 0 && p < den * TWO_63 {
      QuotientBelow(p, den, TWO_63);
    }
  }

  lemma QuotientBelow(x: nat, d: nat, b: nat)
    requires x < d * b
    ensures d > 0 && x / d < b
  {
    if d > 0 {
      MulOrder(d, b, x / d);
    }
  }

  // ---------------------------------------------------------------- durations and clock units

  function Negate(r: Outcome<int>): Outcome<int> {
    if r.Panic? then Panic else Value(-r.value)
  }

  /** The absolute value of a duration; that of the smallest is taken to be the largest. */
  function Abs(d: Int64): (a: Int64)
    ensures a >= 0
  {
    if d == -TWO_63 then TWO_63 - 1 else if d < 0 then -d else d
  }

  /** Converts nanoseconds into units of 1/hz, towards zero. */
  function FromDuration(d: Int64, hz: U32): Outcome<int>
    decreases d < 0
  {
    if d < 0 then Negate(FromDuration(Abs(d), hz)) else Quotient(d * hz, SECOND)
  }

  /** Converts units of 1/hz into nanoseconds, towards zero. */
  function ToDuration(tm: Int64, hz: U32): Outcome<int>
    requires tm > -TWO_63     // otherwise -tm is tm, and the conversion never ends
    decreases tm < 0
  {
    if tm < 0 then Negate(ToDuration(-tm, hz)) else Quotient(tm * SECOND, hz)
  }

  /** The quotient of x by d > 0, rounded towards zero. */
  function Towards0(x: int, d: int): int
    requires d > 0
  {
    if x < 0 then -(-x / d) else x / d
  }

  /** The smallest duration is taken for its successor. */
  function Clamp(d: Int64): (c: Int64)
    ensures c > -TWO_63
  {
    if d == -TWO_63 then -TWO_63 + 1 else d
  }

  /** For clocks of at most 10^9 Hz nothing overflows. */
  lemma FromDurationMeaning(d: Int64, hz: U32)
    requires 1 <= hz <= SECOND
    ensures FromDuration(d, hz) == Value(Towards0(Clamp(d) * hz, SECOND))
  {
    var c := Clamp(d);
    var a: int := if c < 0 then -(c as int) else c;
    MulBounds(a, TWO_63 - 1, hz, SECOND);
    QuotientMeaning(a * hz, SECOND);
    if c < 0 {
      assert -(c * hz) == a * hz;
      assert c * hz <= 0 by { MulNonNegative(a, hz); }
    }
  }

  lemma MulBounds(a: nat, b: nat, c: nat, d: nat)
    requires a <= b && c <= d
    ensures a * c <= b * d
  {
    MulOrder(a, c, d);
    MulOrder(d, a, b);
  }

  /** In range: the result fits in a duration. */
  predicate Fits(tm: int, hz: U32) {
    -TWO_63 < tm < TWO_63 && 0 - hz * TWO_63 < tm * SECOND < hz * TWO_63
  }

  lemma ToDurationMeaning(tm: Int64, hz: U32)
    requires Fits(tm, hz)
    ensures hz > 0 && tm > -TWO_63
    ensures ToDuration(tm, hz) == Value(Towards0(tm * SECOND, hz))
    ensures -TWO_63 < Towards0(tm * SECOND, hz) < TWO_63
  {
    var a: int := if tm < 0 then -(tm as int) else tm;
    QuotientMeaning(a * SECOND, hz);
    QuotientBelow(a * SECOND, hz, TWO_63);
  }

  /** The rounding error is less than one divisor, and towards zero. */
  lemma Towards0Error(x: int, d: nat)
    requires d > 0
    ensures var q := Towards0(x, d);
            && (x >= 0 ==> q >= 0 && d * q <= x < d * q + d)
            && (x <= 0 ==> q <= 0 && d * q - d < x <= d * q)
  {
    DivMod(x, d);
    DivMod(-x, d);
    NegateProduct(d, -x / d);
    if x >= 0 {
      QuotientMonotone(0, x, d);
    } else {
      QuotientMonotone(0, -x, d);
    }
  }

  lemma Towards0Odd(x: int, d: nat)
    requires d > 0
    ensures Towards0(-x, d) == -Towards0(x, d)
  {
    if x == 0 {
      QuotientIs(0, d, 0);
    }
  }

  /** From units to a duration and back. */
  lemma UnitsSurvive(a: nat, hz: nat)
    requires 1 <= hz <= SECOND
    ensures a * SECOND / hz * hz / SECOND == if a * SECOND % hz == 0 then a else a - 1
  {
    var d := a * SECOND / hz;
    DivMod(a * SECOND, hz);
    assert d * hz == hz * d;
    if a * SECOND % hz == 0 {
      QuotientIs(d * hz, SECOND, a);
    } else {
      QuotientIs(d * hz, SECOND, a - 1);
    }
  }

  /** Converting to a duration and back loses nothing if the duration is
      exact, and one unit towards zero otherwise. */
  lemma DurationRoundTrip(t: Int64, hz: U32)
    requires 1 <= hz <= SECOND && Fits(t, hz)
    ensures var d, a := ToDuration(t, hz), if t < 0 then -(t as int) else t as int;
            && d.Value? && -TWO_63 < d.value < TWO_63
            && var back := if a * SECOND % hz == 0 then a else a - 1;
               FromDuration(d.value, hz) == Value(if t < 0 then -back else back)
  {
    var a: int := if t < 0 then -(t as int) else t;
    var d := a * SECOND / hz;
    ToDurationMeaning(t, hz);
    assert Towards0(t * SECOND, hz) == if t < 0 then -d else d;
    FromDurationMeaning(Towards0(t * SECOND, hz), hz);
    UnitsSurvive(a, hz);
    QuotientMonotone(0, a * SECOND, hz);
    MulNonNegative(d, hz);
    NegateProduct(d, hz);
    Towards0Odd(d * hz, SECOND);
  }

  // ---------------------------------------------------------------- NTP time

  /** The difference of two times; durations saturate. */
  function Sub(a: int, b: int): (d: Int64)
    ensures -TWO_63 <= a - b < TWO_63 ==> d == a - b
  {
    if a - b >= TWO_63 then TWO_63 - 1 else if a - b < -TWO_63 then -TWO_63 else a - b
  }

  /** Times are nanoseconds since the start of 1900, the origin of NTP time. */
  function NTPToTime(ntp: U64): int {
    var sec, frac := ntp / TWO_32, ntp % TWO_32;
    sec * SECOND + frac * SECOND / TWO_32
  }

  /** For a time before the origin the quotient and remainder are negative, and wrap. */
  function TimeToNTP(tm: int): U64 {
    var d := Sub(tm, 0);
    var q := Towards0(d, SECOND);
    var sec, frac := q % TWO_32, (d - q * SECOND) % TWO_32;
    (sec * TWO_32 + frac * TWO_32 / SECOND) % TWO_64
  }

  /** The times that 32 bits of seconds can express. */
  const ERA := TWO_32 * SECOND

  lemma NTPFraction(n: nat)
    ensures n < SECOND ==> n * TWO_32 / SECOND < TWO_32
    ensures n * TWO_32 / SECOND * SECOND / TWO_32 == if n * TWO_32 % SECOND == 0 then n else n - 1
  {
    if n < SECOND {
      QuotientBelow(n * TWO_32, SECOND, TWO_32);
    }
  }

  lemma TimeToNTPIs(tm: Int64)
    ensures var q := Towards0(tm, SECOND);
            TimeToNTP(tm) == (q % TWO_32 * TWO_32 + (tm - q * SECOND) % TWO_32 * TWO_32 / SECOND) % TWO_64
  {
    hide Towards0;
  }

  lemma TimeToNTPParts(tm: nat)
    requires tm < ERA
    ensures TimeToNTP(tm) == tm / SECOND * TWO_32 + tm % SECOND * TWO_32 / SECOND
    ensures TimeToNTP(tm) / TWO_32 == tm / SECOND
    ensures TimeToNTP(tm) % TWO_32 == tm % SECOND * TWO_32 / SECOND
  {
    hide TimeToNTP, Towards0;
    var sec, n := tm / SECOND, tm % SECOND;
    DivMod(tm, SECOND);
    NTPFraction(n);
    TimeToNTPIs(tm);
    assert Towards0(tm, SECOND) == sec by { NotNegative(tm); }
    SmallParts(sec, n);
    QuotientIs(sec * TWO_32 + n * TWO_32 / SECOND, TWO_32, sec);
  }

  lemma NotNegative(tm: nat)
    ensures Towards0(tm, SECOND) == tm / SECOND
  {
  }

  lemma SmallParts(sec: nat, n: nat)
    requires sec < TWO_32 && n < SECOND && n * TWO_32 / SECOND < TWO_32
    ensures sec % TWO_32 == sec && n % TWO_32 == n
    ensures (sec * TWO_32 + n * TWO_32 / SECOND) % TWO_64 == sec * TWO_32 + n * TWO_32 / SECOND
  {
  }

  /** 2^32 is invertible modulo 5^9, the part of a second's nanoseconds it does not divide. */
  lemma ExactIffDivides(n: nat)
    ensures n * TWO_32 % SECOND == 0 <==> n % 1953125 == 0
  {
    if n % 1953125 == 0 {
      var m := n / 1953125;
      assert n * TWO_32 == SECOND * (m * 8388608);
      QuotientIs(n * TWO_32, SECOND, m * 8388608);
    }
    if n * TWO_32 % SECOND == 0 {
      var k := n * TWO_32 / SECOND;
      assert n * 8388608 == 1953125 * k;
      // 1241897 is the inverse of 2^23
      assert 1241897 * 8388608 == 5333907 * 1953125 + 1;
      assert n == 1953125 * (1241897 * k - 5333907 * n);
      QuotientIs(n, 1953125, 1241897 * k - 5333907 * n);
    }
  }

  /** An NTP time is a number of units of 2^-32 s, and it is converted to the nanoseconds in it, rounded down. */
  lemma NTPToTimeIsFloor(ntp: U64)
    ensures NTPToTime(ntp) * TWO_32 <= ntp * SECOND < (NTPToTime(ntp) + 1) * TWO_32
  {
    var sec, frac := ntp / TWO_32, ntp % TWO_32;
    DivMod(frac * SECOND, TWO_32);
    assert ntp * SECOND == sec * SECOND * TWO_32 + frac * SECOND;
  }

  /** A time from 1900 until the end of the era is converted to the units of 2^-32 s in it, rounded down. */
  lemma TimeToNTPIsFloor(tm: nat)
    requires tm < ERA
    ensures TimeToNTP(tm) * SECOND <= tm * TWO_32 < (TimeToNTP(tm) + 1) * SECOND
  {
    hide TimeToNTP;
    TimeToNTPParts(tm);
    var sec, n := tm / SECOND, tm % SECOND;
    DivMod(n * TWO_32, SECOND);
    assert tm * TWO_32 == sec * TWO_32 * SECOND + n * TWO_32;
  }

  /** The round trip through NTP time loses exactly one nanosecond, unless 5^9
      divides the nanoseconds within the second; then it loses nothing. */
  lemma NTPRoundTrip(tm: nat)
    requires tm < ERA
    ensures NTPToTime(TimeToNTP(tm)) == if tm % SECOND % 1953125 == 0 then tm else tm - 1
  {
    TimeToNTPParts(tm);
    NTPFraction(tm % SECOND);
    ExactIffDivides(tm % SECOND);
  }

  /** The other round trip loses less than six units of 2^-32 s, and never crosses into an earlier second. */
  lemma NTPRoundTripBack(ntp: U64)
    ensures 0 <= NTPToTime(ntp) < ERA
    ensures ntp - 5 <= TimeToNTP(NTPToTime(ntp)) <= ntp
    ensures TimeToNTP(NTPToTime(ntp)) / TWO_32 == ntp / TWO_32
  {
    var sec, frac := ntp / TWO_32, ntp % TWO_32;
    var n := frac * SECOND / TWO_32;
    QuotientBelow(frac * SECOND, TWO_32, SECOND);
    assert NTPToTime(ntp) == sec * SECOND + n;
    QuotientIs(sec * SECOND + n, SECOND, sec);
    TimeToNTPParts(sec * SECOND + n);
  }

  /** How far off the conversion is: a negative remainder wraps to a fraction that is 2^32 nanoseconds too large. */
  function Skew(tm: int): nat {
    if tm < 0 && tm % SECOND != 0 then TWO_32 else 0
  }

  /** The fraction that the conversion wraps, and the whole seconds below it. */
  lemma TimeParts(tm: Int64)
    ensures var q := Towards0(tm, SECOND);
            && -SECOND < tm - q * SECOND < SECOND
            && (tm - q * SECOND) % TWO_32 == tm - q * SECOND + Skew(tm)
  {
    Towards0Error(tm, SECOND);
    var r := tm - Towards0(tm, SECOND) * SECOND;
    if r == 0 {
      QuotientIs(tm, SECOND, Towards0(tm, SECOND));
    }
  }

  /** A number of seconds and a fraction that may exceed a second, as 64 bits of NTP time. */
  lemma SecondsAndFraction(sec: U32, frac: nat) returns (q: int)
    requires frac < TWO_64
    ensures var ntp := (sec * TWO_32 + frac) % TWO_64;
            NTPToTime(ntp) == sec * SECOND + frac * SECOND / TWO_32 - q * ERA
  {
    var carry, f := frac / TWO_32, frac % TWO_32;
    var x := sec + carry;
    q := x / TWO_32;
    var s := x % TWO_32;
    assert sec * TWO_32 + frac == s * TWO_32 + f + q * TWO_64;
    QuotientIs(sec * TWO_32 + frac, TWO_64, q);
    QuotientIs(s * TWO_32 + f, TWO_32, s);
    QuotientIs(frac * SECOND, TWO_32, carry * SECOND + f * SECOND / TWO_32);
  }

  /** Every time that a duration reaches comes back from NTP time less at most a nanosecond, up to whole eras, exactly
      if it is not before 1900 or is a whole number of seconds; otherwise it is off by 2^32 nanoseconds. */
  lemma NTPRoundTripAnyTime(tm: Int64) returns (q: int, loss: nat)
    ensures loss <= 1 && NTPToTime(TimeToNTP(tm)) == tm + Skew(tm) - loss + q * ERA
  {
    hide Towards0, TimeToNTP, NTPToTime;
    var secs := Towards0(tm, SECOND);
    var r := (tm - secs * SECOND) % TWO_32;
    TimeParts(tm);
    TimeToNTPIs(tm);
    NTPFraction(r);
    loss := if r * TWO_32 % SECOND == 0 then 0 else 1;
    var k := SecondsAndFraction(secs % TWO_32, r * TWO_32 / SECOND);
    q := EraOf(tm, secs, r, k, loss);
  }

  lemma EraOf(tm: int, secs: int, r: nat, k: int, loss: nat) returns (q: int)
    requires r == tm - secs * SECOND + Skew(tm)
    ensures secs % TWO_32 * SECOND + (r - loss) - k * ERA == tm + Skew(tm) - loss + q * ERA
  {
    hide Skew;
    q := -(secs / TWO_32) - k;
    DivMod(secs, TWO_32);
    assert secs % TWO_32 * SECOND == secs * SECOND - secs / TWO_32 * ERA;
  }
}
