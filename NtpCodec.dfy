/**
 * The fixed-point time formats of an NTP client association (the NTP
 * Timestamp Format and NTP Short Format of section 6 of RFC 5905), the two
 * integer macros that convert a 32-bit fraction of a second to and from
 * microseconds, and the offset between the NTP epoch (1 Jan 1900) and the
 * Unix epoch (1 Jan 1970).
 *
 * Every C `uint32_t` value is a `U32`; every place where uint32 arithmetic
 * could wrap goes through `Wrap32`, and `x >> n` is written `x / 2^n`.
 */
module NtpCodec {

  /** One second in units of the 64-bit timestamp's fraction: 4294967296 = 1 second. */
  const FRAC_PER_SECOND: nat := 0x1_0000_0000
  /** One second in units of the short format's fraction: 65536 = 1 second. */
  const SHORT_FRAC_PER_SECOND: nat := 0x1_0000
  const USEC_PER_SECOND: nat := 1_000_000
  const SECONDS_PER_DAY: nat := 86_400

  type U32 = x: int | 0 <= x < 0x1_0000_0000
  type U16 = x: int | 0 <= x < 0x1_0000
  /** A microsecond count within one second, as held in the tv_usec field of a timeval. */
  type USec = x: int | 0 <= x < 1_000_000

  /** Storing an integer into a uint32_t: reduction modulo 2^32. */
  function Wrap32(v: int): (r: U32)
    ensures (v - r) % FRAC_PER_SECOND == 0
    ensures 0 <= v < FRAC_PER_SECOND ==> r == v
  {
    v % FRAC_PER_SECOND
  }

  // ---------------------------------------------------------------------------
  // The two structures
  // ---------------------------------------------------------------------------

  /** struct ntpTimestamp: 32-bit whole seconds, then a 32-bit fraction. */
  datatype NtpTimestamp = NtpTimestamp(fullSeconds: U32, partSeconds: U32)

  /** struct ntpShortTime: 16-bit whole seconds, then a 16-bit fraction. */
  datatype NtpShortTime = NtpShortTime(fullSeconds: U16, partSeconds: U16)

  /** The 64-bit value a timestamp stands for, in units of 2^-32 second. */
  function TimestampToWord(t: NtpTimestamp): (w: nat)
    ensures w < FRAC_PER_SECOND * FRAC_PER_SECOND
    ensures t.fullSeconds * FRAC_PER_SECOND <= w < (t.fullSeconds + 1) * FRAC_PER_SECOND
  {
    t.fullSeconds * FRAC_PER_SECOND + t.partSeconds
  }

  /** Splits a 64-bit value into its seconds (high word) and fraction (low word). */
  function WordToTimestamp(w: nat): (t: NtpTimestamp)
    requires w < FRAC_PER_SECOND * FRAC_PER_SECOND
    ensures t.fullSeconds * FRAC_PER_SECOND <= w < (t.fullSeconds + 1) * FRAC_PER_SECOND
  {
    NtpTimestamp(w / FRAC_PER_SECOND, w % FRAC_PER_SECOND)
  }

  lemma TimestampWordRoundTrip(t: NtpTimestamp)
    ensures WordToTimestamp(TimestampToWord(t)) == t
  {
  }

  lemma WordTimestampRoundTrip(w: nat)
    requires w < FRAC_PER_SECOND * FRAC_PER_SECOND
    ensures TimestampToWord(WordToTimestamp(w)) == w
  {
  }

  /** Comparing the 64-bit values is comparing (seconds, fraction) lexicographically. */
  lemma TimestampOrder(a: NtpTimestamp, b: NtpTimestamp)
    ensures TimestampToWord(a) < TimestampToWord(b) <==>
      a.fullSeconds < b.fullSeconds || (a.fullSeconds == b.fullSeconds && a.partSeconds < b.partSeconds)
  {
  }

  /** The 32-bit value a short-format time stands for, in units of 2^-16 second. */
  function ShortTimeToWord(s: NtpShortTime): (w: nat)
    ensures w < FRAC_PER_SECOND
    ensures s.fullSeconds * SHORT_FRAC_PER_SECOND <= w < (s.fullSeconds + 1) * SHORT_FRAC_PER_SECOND
  {
    s.fullSeconds * SHORT_FRAC_PER_SECOND + s.partSeconds
  }

  function WordToShortTime(w: U32): (s: NtpShortTime)
    ensures s.fullSeconds * SHORT_FRAC_PER_SECOND <= w < (s.fullSeconds + 1) * SHORT_FRAC_PER_SECOND
  {
    NtpShortTime(w / SHORT_FRAC_PER_SECOND, w % SHORT_FRAC_PER_SECOND)
  }

  lemma ShortTimeWordRoundTrip(s: NtpShortTime)
    ensures WordToShortTime(ShortTimeToWord(s)) == s
  {
  }

  lemma WordShortTimeRoundTrip(w: U32)
    ensures ShortTimeToWord(WordToShortTime(w)) == w
  {
  }

  // ---------------------------------------------------------------------------
  // uSec2Frac(x) = 4294*(x) + ((1981*(x)) >> 11)
  // ---------------------------------------------------------------------------

  /** The macro uSec2Frac on a uint32 operand, every uint32 wrap written out. */
  function USec2Frac(x: U32): (r: U32)
    ensures x == 0 ==> r == 0
  {
    Wrap32(Wrap32(4294 * x) + Wrap32(1981 * x) / 2048)
  }

  /** For a microsecond count, neither product nor the sum leaves 32 bits. */
  lemma USec2FracNoOverflow(x: USec)
    ensures 4294 * x < FRAC_PER_SECOND && 1981 * x < FRAC_PER_SECOND
    ensures 4294 * x + (1981 * x) / 2048 < FRAC_PER_SECOND
    ensures USec2Frac(x) == 4294 * x + (1981 * x) / 2048
  {
  }

  /**
   * uSec2Frac(x) never exceeds the exact fraction x * 2^32 / 10^6 and falls
   * short of it by fewer than 12 fraction units (about 2.8 nanoseconds).
   */
  lemma USec2FracBounds(x: USec)
    ensures USEC_PER_SECOND * USec2Frac(x) <= x * FRAC_PER_SECOND
    ensures x * FRAC_PER_SECOND < USEC_PER_SECOND * (USec2Frac(x) + 12)
  {
    USec2FracNoOverflow(x);
    var q := (1981 * x) / 2048;
    assert 2048 * q <= 1981 * x < 2048 * q + 2048;
  }

  lemma USec2FracMonotone(x: USec, y: USec)
    requires x <= y
    ensures USec2Frac(x) <= USec2Frac(y)
  {
    USec2FracNoOverflow(x);
    USec2FracNoOverflow(y);
    var qx, qy := (1981 * x) / 2048, (1981 * y) / 2048;
    assert 2048 * qx <= 1981 * x <= 1981 * y < 2048 * qy + 2048;
  }

  // ---------------------------------------------------------------------------
  // Frac2uSec(x) = ((x) >> 12) - 759 * ((((x) >> 10) + 32768) >> 16)
  // ---------------------------------------------------------------------------

  /**
   * The term (((x) >> 10) + 32768) >> 16 of Frac2uSec: x / 2^26 rounded to
   * the nearest integer, halves rounded up.
   */
  function Rounded26(x: U32): (r: U32)
    ensures 0x400_0000 * r - 0x200_0000 <= x < 0x400_0000 * r + 0x200_0000
    ensures r <= 64
  {
    var q := x / 1024;
    assert 1024 * q <= x < 1024 * q + 1024;
    var r := Wrap32(q + 32768) / 65536;
    assert 65536 * r <= q + 32768 < 65536 * r + 65536;
    r
  }

  /** The macro Frac2uSec on a uint32 operand, every uint32 wrap written out. */
  function Frac2uSec(x: U32): (r: U32)
    ensures r <= 999_999
    ensures x == 0 ==> r == 0
  {
    Frac2uSecNoBorrow(x);
    Wrap32(x / 4096 - Wrap32(759 * Rounded26(x)))
  }

  /** The subtraction in Frac2uSec never goes below zero, so it never wraps. */
  lemma Frac2uSecNoBorrow(x: U32)
    ensures 759 * Rounded26(x) <= x / 4096
    ensures x / 4096 - 759 * Rounded26(x) <= 999_999
  {
    var a, r := x / 4096, Rounded26(x);
    assert 4096 * a <= x < 4096 * a + 4096;
    if r == 64 {
      assert a <= 0xF_FFFF;
    }
  }

  /**
   * The error of Frac2uSec against the exact x * 10^6 / 2^32, scaled by 2^32:
   * it lies strictly between -380.5 and +379.5 microseconds. The macro is
   * unbiased only because 2^32 * (1/4096 - 759/2^26) == 10^6; the rounding
   * of x / 2^26 before the multiplication by 759 costs up to 380.5 us.
   */
  lemma Frac2uSecError(x: U32)
    ensures -761 * 0x8000_0000 < FRAC_PER_SECOND * Frac2uSec(x) - USEC_PER_SECOND * x
    ensures FRAC_PER_SECOND * Frac2uSec(x) - USEC_PER_SECOND * x < 759 * 0x8000_0000
  {
    Frac2uSecNoBorrow(x);
    var a, r := x / 4096, Rounded26(x);
    assert 4096 * a <= x < 4096 * a + 4096;
    assert Frac2uSec(x) == a - 759 * r;
  }

  /** Microseconds to fraction and back lands within [-380, +379] us of the start. */
  lemma USecRoundTrip(u: USec)
    ensures u - 380 <= Frac2uSec(USec2Frac(u)) <= u + 379
  {
    USec2FracBounds(u);
    Frac2uSecError(USec2Frac(u));
  }

  /**
   * Both ends of the round-trip interval are reached: 7813 us comes back as
   * 7433 us and 7812 us as 8191 us. Near a fraction of 2^25 (7812.5 us) the
   * result also drops by 758 us when the fraction grows by one unit, and the
   * fraction 2^25 + 4095 (7813.45 us) still gives 7433, 380.45 us short.
   */
  lemma Frac2uSecCounterexample()
    ensures Frac2uSec(USec2Frac(7813)) == 7433
    ensures Frac2uSec(USec2Frac(7812)) == 8191
    ensures Frac2uSec(0x1FF_FFFF) == 8191 && Frac2uSec(0x200_0000) == 7433
    ensures Frac2uSec(0x200_0FFF) == 7433
  {
    USec2FracNoOverflow(7813);
    USec2FracNoOverflow(7812);
    assert USec2Frac(7813) == 33_556_579 && Rounded26(33_556_579) == 1;
    assert USec2Frac(7812) == 33_552_284 && Rounded26(33_552_284) == 0;
    assert Rounded26(0x1FF_FFFF) == 0 && Rounded26(0x200_0000) == 1 && Rounded26(0x200_0FFF) == 1;
  }

  /**
   * Frac2uSec with the factor 759 moved inside the rounding:
   * ((x) >> 12) - ((759 * ((x) >> 10) + 32768) >> 16).
   * 759 * (2^22 - 1) + 32768 still fits in 32 bits.
   */
  function Frac2uSecFixed(x: U32): (r: U32)
    ensures r <= 999_999
    ensures x == 0 ==> r == 0
  {
    Frac2uSecFixedNoBorrow(x);
    Wrap32(x / 4096 - Rounded759(x))
  }

  /**
   * The term (759 * ((x) >> 10) + 32768) >> 16 of Frac2uSecFixed, in uint32
   * arithmetic: the sum never wraps, and the result is 759 * (x >> 10) / 2^16
   * rounded to the nearest integer, halves rounded up.
   */
  function Rounded759(x: U32): (r: U32)
    ensures 759 * (x / 1024) + 32768 < FRAC_PER_SECOND
    ensures 65536 * r - 32768 <= 759 * (x / 1024) < 65536 * r + 32768
  {
    Wrap32(759 * (x / 1024) + 32768) / 65536
  }

  lemma Frac2uSecFixedNoBorrow(x: U32)
    ensures Rounded759(x) <= x / 4096
    ensures x / 4096 - Rounded759(x) <= 999_999
  {
    var a, q, r := x / 4096, x / 1024, Rounded759(x);
    assert 4096 * a <= x < 4096 * a + 4096;
    assert 1024 * q <= x < 1024 * q + 1024;
    assert 4 * a <= q < 4 * a + 4 && a <= 0xF_FFFF;
    // r is at most a: 65536 * r <= 759 * (4a + 3) + 32768 < 65536 * (a + 1)
    assert 65536 * r <= 3036 * a + 35045;
    // and a - r stays below 10^6: 65536 * (a - r) < 62500 * a + 32768
    assert 65536 * r > 3036 * a - 32768;
  }

  /** Frac2uSecFixed is within -1.5 and +0.52 microseconds of x * 10^6 / 2^32. */
  lemma Frac2uSecFixedError(x: U32)
    ensures -3 * 0x8000_0000 < FRAC_PER_SECOND * Frac2uSecFixed(x) - USEC_PER_SECOND * x
    ensures FRAC_PER_SECOND * Frac2uSecFixed(x) - USEC_PER_SECOND * x < 0x8000_0000 + 759 * 0x1_0000
  {
    Frac2uSecFixedNoBorrow(x);
    var a, q, r := x / 4096, x / 1024, Rounded759(x);
    assert 4096 * a <= x < 4096 * a + 4096;
    assert 1024 * q <= x < 1024 * q + 1024;
    assert Frac2uSecFixed(x) == a - r;
  }

  /** With the corrected macro the microsecond round trip loses at most 1 us. */
  lemma USecRoundTripFixed(u: USec)
    ensures u - 1 <= Frac2uSecFixed(USec2Frac(u)) <= u
  {
    USec2FracBounds(u);
    Frac2uSecFixedError(USec2Frac(u));
  }

  // ---------------------------------------------------------------------------
  // The epoch offset JAN_1970
  // ---------------------------------------------------------------------------

  /** The Unix epoch (1 Jan 1970) in NTP seconds since 1 Jan 1900. */
  const JAN_1970: U32 := 0x83aa7e80
  /** 1 Jan 1972, the first day of UTC, in NTP seconds. */
  const FIRST_DAY_UTC: nat := 2_272_060_800

  /** The Gregorian leap-year rule. */
  predicate IsLeapYear(y: int) {
    y % 4 == 0 && (y % 100 != 0 || y % 400 == 0)
  }

  function DaysInYear(y: int): nat {
    if IsLeapYear(y) then 366 else 365
  }

  /** Days from 1 Jan 1900 to 1 Jan of year y. */
  function DaysSince1900(y: int): nat
    requires y >= 1900
    decreases y - 1900
  {
    if y == 1900 then 0 else DaysSince1900(y - 1) + DaysInYear(y - 1)
  }

  /** Between 1901 and 2100 the leap years after 1900 are exactly the multiples of 4. */
  lemma {:induction false} DaysSince1900ClosedForm(y: int)
    requires 1901 <= y <= 2100
    ensures DaysSince1900(y) == 365 * (y - 1900) + (y - 1901) / 4
  {
    if y > 1901 {
      DaysSince1900ClosedForm(y - 1);
      // the year just added is a leap year exactly when (y - 1901) / 4 steps up
      assert IsLeapYear(y - 1) <==> (y - 1) % 4 == 0;
      assert (y - 1901) / 4 == (y - 1902) / 4 + (if (y - 1) % 4 == 0 then 1 else 0);
    }
  }

  /** JAN_1970 is 25567 whole days, the span from 1900 to 1970. */
  lemma Jan1970IsUnixEpoch()
    ensures JAN_1970 == 2_208_988_800
    ensures DaysSince1900(1970) == 25_567
    ensures JAN_1970 == DaysSince1900(1970) * SECONDS_PER_DAY
  {
    DaysSince1900ClosedForm(1970);
  }

  /** The first day of UTC falls 730 days (1970 and 1971) after the Unix epoch. */
  lemma FirstDayUtcAfterUnixEpoch()
    ensures FIRST_DAY_UTC == DaysSince1900(1972) * SECONDS_PER_DAY
    ensures FIRST_DAY_UTC - JAN_1970 == 730 * SECONDS_PER_DAY
  {
    DaysSince1900ClosedForm(1972);
  }

  /** The fullSeconds field for Unix time s: s + JAN_1970 stored in a uint32. */
  function UnixToNtpSeconds(s: int): (n: U32)
    ensures (n - s - JAN_1970) % FRAC_PER_SECOND == 0
  {
    Wrap32(s + JAN_1970)
  }

  /** Unix seconds from a fullSeconds field: the uint32 difference fullSeconds - JAN_1970. */
  function NtpToUnixSeconds(n: U32): (s: U32)
    ensures (n - s - JAN_1970) % FRAC_PER_SECOND == 0
  {
    Wrap32(n - JAN_1970)
  }

  /** Shifting into the NTP era and back recovers any Unix time that fits in 32 bits. */
  lemma UnixSecondsRoundTrip(s: int)
    ensures NtpToUnixSeconds(UnixToNtpSeconds(s)) == Wrap32(s)
    ensures 0 <= s < FRAC_PER_SECOND ==> NtpToUnixSeconds(UnixToNtpSeconds(s)) == s
  {
  }

  lemma NtpSecondsRoundTrip(n: U32)
    ensures UnixToNtpSeconds(NtpToUnixSeconds(n)) == n
  {
  }

  /** NTP era 0 ends at Unix time 2085978496 (7 Feb 2036): fullSeconds wraps to 0 there. */
  lemma NtpEraWrap()
    ensures UnixToNtpSeconds(2_085_978_495) == 0xFFFF_FFFF
    ensures UnixToNtpSeconds(2_085_978_496) == 0
  {
  }

  // ---------------------------------------------------------------------------
  // Whole timestamps
  // ---------------------------------------------------------------------------

  /** A struct timeval: Unix seconds and microseconds. */
  datatype TimeVal = TimeVal(seconds: int, microseconds: USec)

  /** A wall-clock time as an NTP timestamp: JAN_1970 shift and uSec2Frac. */
  function UnixToNtp(tv: TimeVal): (t: NtpTimestamp)
    ensures USEC_PER_SECOND * t.partSeconds <= tv.microseconds * FRAC_PER_SECOND
    ensures tv.microseconds * FRAC_PER_SECOND < USEC_PER_SECOND * (t.partSeconds + 12)
    ensures (t.fullSeconds - tv.seconds - JAN_1970) % FRAC_PER_SECOND == 0
  {
    USec2FracBounds(tv.microseconds);
    NtpTimestamp(UnixToNtpSeconds(tv.seconds), USec2Frac(tv.microseconds))
  }

  /** An NTP timestamp as wall-clock time, converting the fraction with Frac2uSecFixed. */
  function NtpToUnix(t: NtpTimestamp): (tv: TimeVal)
    ensures 0 <= tv.seconds < FRAC_PER_SECOND
    ensures (t.fullSeconds - tv.seconds - JAN_1970) % FRAC_PER_SECOND == 0
    ensures -3 * 0x8000_0000 < FRAC_PER_SECOND * tv.microseconds - USEC_PER_SECOND * t.partSeconds
    ensures FRAC_PER_SECOND * tv.microseconds - USEC_PER_SECOND * t.partSeconds < 0x8000_0000 + 759 * 0x1_0000
  {
    Frac2uSecFixedError(t.partSeconds);
    TimeVal(NtpToUnixSeconds(t.fullSeconds), Frac2uSecFixed(t.partSeconds))
  }

  /** Wall clock to timestamp and back keeps the seconds and loses at most 1 us. */
  lemma TimeValRoundTrip(tv: TimeVal)
    requires 0 <= tv.seconds < FRAC_PER_SECOND
    ensures NtpToUnix(UnixToNtp(tv)).seconds == tv.seconds
    ensures tv.microseconds - 1 <= NtpToUnix(UnixToNtp(tv)).microseconds <= tv.microseconds
  {
    UnixSecondsRoundTrip(tv.seconds);
    USecRoundTripFixed(tv.microseconds);
  }
}
