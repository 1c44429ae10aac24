# NTP timestamp codec of ios-ntp

ios-ntp is an Objective-C client that asks several NTP servers for the time. Each `NetAssociation` object talks to one server.
This project models the fixed-point core defined by the three copies of `NetAssociation.h`: `src/`, `Classes/` and `ios-ntp-lib/`.
They do not all carry the same parts:

- `src/` and `Classes/` carry both structs, both macros and `JAN_1970`.
- `ios-ntp-lib/` carries only the macros and `JAN_1970`.
- Only `src/` carries the "First day UTC" comment (2,272,060,800).
- Where a part appears in more than one copy, its text is the same.

The parts are:

- `struct ntpTimestamp` is the NTP Timestamp Format of section 6 of RFC 5905. It holds 32-bit whole seconds and a 32-bit fraction, where 2^32 units make one second.
- `struct ntpShortTime` is the NTP Short Format of the same section. It holds 16-bit seconds and a 16-bit fraction, where 65536 units make one second.
- `uSec2Frac(x) = 4294*x + ((1981*x) >> 11)` converts microseconds into a 32-bit fraction.
- `Frac2uSec(x) = (x >> 12) - 759 * (((x >> 10) + 32768) >> 16)` converts a 32-bit fraction into microseconds.
- `JAN_1970 = 0x83aa7e80` is the Unix epoch counted in NTP seconds. In `src/`, the comment on the next line gives 2,272,060,800 as the first day of UTC.

Everything is in the single module `NtpCodec` (`NtpCodec.dfy`):

- Integers are unbounded, so every uint32 value has the type `U32`. Each place where C's uint32 arithmetic could wrap goes through `Wrap32`, which reduces modulo 2^32.
- `x >> n` is written as division by 2^n.
- Error bounds are stated in integers, scaled by 2^32, so no reals appear.
- The calendar reference `DaysSince1900` uses the Gregorian leap-year rule. It checks `JAN_1970` and the first-UTC-day value independently of the constants themselves.
- `UnixToNtp` and `NtpToUnix` combine the seconds shift and the fraction macros into whole-timestamp conversions between a `timeval` and an `ntpTimestamp`. The functions that call the macros live in `.m` files, which are not part of this model. These two functions show how the header's pieces combine.

`Frac2uSec` is modelled exactly as written, and every property of it is proved about that form:

- The result lies in [0, 999999] and has no negative intermediate.
- The error against the exact conversion lies within (-380.5, +379.5) µs.
- A microsecond round trip lands within [-380, +379] µs of where it started.
- The constants satisfy 1/4096 - 759/2^26 = 10^6/2^32 exactly, so an exact scaling of the fraction was meant. The rounding placed before the multiplication by 759 spoils that. See Findings.

## Model

| member | source | states |
|---|---|---|
| `NtpCodec.Wrap32` | src/NetAssociation.h:25-26 | storing an integer in a uint32 field keeps its value mod 2^32 and keeps any value already in [0, 2^32) unchanged |
| `NtpCodec.TimestampToWord` | src/NetAssociation.h:13-27 | the 64-bit value of a timestamp is below 2^64, and `fullSeconds` is its whole number of seconds: the 32-bit fraction is less than one second (2^32 = 1 s) |
| `NtpCodec.WordToTimestamp` | Classes/NetAssociation.h:13-28 | splitting a 64-bit value gives the seconds word whose second contains the value |
| `NtpCodec.TimestampWordRoundTrip` | src/NetAssociation.h:24-27 | timestamp -> 64-bit value -> timestamp is the identity |
| `NtpCodec.WordTimestampRoundTrip` | Classes/NetAssociation.h:25-28 | 64-bit value -> timestamp -> 64-bit value is the identity |
| `NtpCodec.TimestampOrder` | src/NetAssociation.h:24-27 | the numeric order of timestamps is the lexicographic order of (fullSeconds, partSeconds), in both directions |
| `NtpCodec.ShortTimeToWord` | src/NetAssociation.h:29-41 | a short-format value fits 32 bits, and its 16-bit fraction is less than one second (65536 = 1 s) |
| `NtpCodec.WordToShortTime` | Classes/NetAssociation.h:30-43 | splitting a 32-bit value gives the seconds half whose second contains the value |
| `NtpCodec.ShortTimeWordRoundTrip` | src/NetAssociation.h:38-41 | short time -> 32-bit value -> short time is the identity |
| `NtpCodec.WordShortTimeRoundTrip` | Classes/NetAssociation.h:40-43 | 32-bit value -> short time -> 32-bit value is the identity |
| `NtpCodec.USec2Frac` | src/NetAssociation.h:84 | uSec2Frac on a uint32 operand, wraps written out; 0 microseconds give fraction 0 |
| `NtpCodec.USec2FracNoOverflow` | Classes/NetAssociation.h:75 | for 0 <= x < 10^6 neither `4294*x` nor `1981*x` nor their sum leaves 32 bits, so the wrapped macro equals the unbounded formula |
| `NtpCodec.USec2FracBounds` | ios-ntp-lib/NetAssociation.h:51 | for 0 <= x < 10^6: 10^6 * uSec2Frac(x) <= x * 2^32 < 10^6 * (uSec2Frac(x) + 12), so the result never exceeds the exact fraction and falls short by fewer than 12 units |
| `NtpCodec.USec2FracMonotone` | src/NetAssociation.h:84 | uSec2Frac is non-decreasing on [0, 10^6) |
| `NtpCodec.Rounded26` | src/NetAssociation.h:85 | `((x >> 10) + 32768) >> 16` is x / 2^26 rounded half up: 2^26 r - 2^25 <= x < 2^26 r + 2^25, and r <= 64 |
| `NtpCodec.Frac2uSec` | Classes/NetAssociation.h:76 | Frac2uSec maps every uint32 into [0, 999999], and fraction 0 to 0 us |
| `NtpCodec.Frac2uSecNoBorrow` | ios-ntp-lib/NetAssociation.h:52 | the subtraction never goes negative (759 * rounded term <= x >> 12), so it never wraps |
| `NtpCodec.Frac2uSecError` | src/NetAssociation.h:85 | -761 * 2^31 < 2^32 * Frac2uSec(x) - 10^6 * x < 759 * 2^31 for every uint32 x: within 381 us of x * 10^6 / 2^32 |
| `NtpCodec.USecRoundTrip` | src/NetAssociation.h:84-85 | for 0 <= u < 10^6, u - 380 <= Frac2uSec(uSec2Frac(u)) <= u + 379 |
| `NtpCodec.Frac2uSecCounterexample` | Classes/NetAssociation.h:75-76 | both round-trip bounds are reached (7813 -> 7433, 7812 -> 8191), the result drops from 8191 to 7433 when the fraction steps from 2^25 - 1 to 2^25, and fraction 2^25 + 4095 (7813.45 us exact) also gives 7433 |
| `NtpCodec.Frac2uSecFixed` | src/NetAssociation.h:85 | the corrected macro maps every uint32 into [0, 999999], and 0 to 0 |
| `NtpCodec.Rounded759` | ios-ntp-lib/NetAssociation.h:52 | in the corrected macro `759 * (x >> 10) + 32768` stays below 2^32, and the term is 759 * (x >> 10) / 2^16 rounded to nearest, halves up: 65536 r - 32768 <= 759 * (x >> 10) < 65536 r + 32768 |
| `NtpCodec.Frac2uSecFixedNoBorrow` | Classes/NetAssociation.h:76 | the corrected macro's subtraction never goes negative and never wraps |
| `NtpCodec.Frac2uSecFixedError` | src/NetAssociation.h:85 | -3 * 2^31 < 2^32 * Frac2uSecFixed(x) - 10^6 * x < 2^31 + 759 * 2^16: within 1.5 us of the exact value |
| `NtpCodec.USecRoundTripFixed` | ios-ntp-lib/NetAssociation.h:51-52 | with the corrected macro the microsecond round trip returns u or u - 1 |
| `NtpCodec.DaysSince1900ClosedForm` | src/NetAssociation.h:87-88 | from 1901 to 2100 the days since 1 Jan 1900 are 365 per year plus one per multiple of 4 passed |
| `NtpCodec.Jan1970IsUnixEpoch` | ios-ntp-lib/NetAssociation.h:25 | JAN_1970 = 0x83aa7e80 = 2,208,988,800 = 25,567 days, the Gregorian span from 1900 to 1970 |
| `NtpCodec.FirstDayUtcAfterUnixEpoch` | src/NetAssociation.h:87-88 | 2,272,060,800 is 1 Jan 1972 in NTP seconds, exactly 730 days after JAN_1970 |
| `NtpCodec.UnixToNtpSeconds` | src/NetAssociation.h:87 | the uint32 fullSeconds for Unix time s is congruent to s + JAN_1970 mod 2^32 |
| `NtpCodec.NtpToUnixSeconds` | Classes/NetAssociation.h:78 | Unix seconds from fullSeconds are congruent to fullSeconds - JAN_1970 mod 2^32 |
| `NtpCodec.UnixSecondsRoundTrip` | ios-ntp-lib/NetAssociation.h:25 | Unix -> NTP -> Unix seconds gives s mod 2^32, and exactly s for 0 <= s < 2^32 |
| `NtpCodec.NtpSecondsRoundTrip` | src/NetAssociation.h:25 | NTP -> Unix -> NTP seconds is the identity on every uint32 |
| `NtpCodec.NtpEraWrap` | Classes/NetAssociation.h:26 | fullSeconds wraps to 0 at Unix time 2,085,978,496 (7 Feb 2036), the end of NTP era 0 |
| `NtpCodec.UnixToNtp` | src/NetAssociation.h:84-87 | the seconds word is congruent to tv.seconds + JAN_1970 mod 2^32, and the fraction is at most 12 units below the exact value of the microseconds |
| `NtpCodec.NtpToUnix` | src/NetAssociation.h:85-87 | the seconds fit 32 bits and are congruent to fullSeconds - JAN_1970 mod 2^32. The microseconds, from the corrected `Frac2uSecFixed`, are within (-1.5, +0.52) us of partSeconds * 10^6 / 2^32 |
| `NtpCodec.TimeValRoundTrip` | src/NetAssociation.h:84-87 | for Unix seconds in [0, 2^32), timeval -> timestamp -> timeval keeps the seconds. With the corrected `Frac2uSecFixed` on the way back, it returns the microseconds or one fewer. With the macro as written the microseconds land in [u - 380, u + 379] (`USecRoundTrip`) |

## Left out

- Sockets, timers and the delegate callbacks are left out: `enable`, `finish`, `start`, `stop`, `initWithServerName:` and the `GCDAsyncUdpSocket`/`AsyncUdpSocket` fields. They are foreign library calls and run-loop scheduling.
- The offset, delay, dispersion and skew arithmetic and the 8-slot `fifoQueue` are left out. Their state is `double`, and the code that fills it is in `NetAssociation.m`, which is not part of this model.
- The packet header fields (`li`, `vn`, `mode`, `stratum`, `poll`, `prec`, `refid`) are left out. They are only declared in these headers.
- `NetworkClock`, `NSDate+NetworkClock`, the application delegates, the view controller and the logging macro are left out. They are concurrency, floating point, UI or logging, and their implementations are not part of this model.
- USec2Frac: its operand is modelled as a uint32. The call sites are not part of this model. If the operand is a signed 32-bit `tv_usec`, then `4294*x` exceeds INT32_MAX for x >= 500,113, and that is C signed overflow. The macro's whole sum already exceeds INT32_MAX from x = 500,001.
- NtpToUnix: converts the fraction with the corrected `Frac2uSecFixed`, not the macro as written (see Findings). `NtpToUnixSeconds` assumes the seconds are recovered by uint32 subtraction.
- The current time (`gettimeofday`) is left out. A `TimeVal` is a parameter instead.

## Findings

| source | as written | input that shows it | evidently intended | confidence | as-written member | corrected member |
|---|---|---|---|---|---|---|
| src/NetAssociation.h:85 (also Classes/NetAssociation.h:76, ios-ntp-lib/NetAssociation.h:52) | `759 * (((x >> 10) + 32768) >> 16)` rounds x / 2^26 to an integer before multiplying by 759, so the error lies within (-380.5, +379.5) us, and the result jumps down by 758 us at each odd multiple of 2^25 | fraction 2^25 (7812.5 us) gives 7433; fraction 2^25 + 4095 (7813.45 us) gives 7433 too; 7813 us round-trips to 7433 us and 7812 us to 8191 us | an exact scaling, since 1/4096 - 759/2^26 = 10^6/2^32. The fix is `(759 * (x >> 10) + 32768) >> 16`: scale first, then round. This gives microseconds within 1.5 us and a round trip within 1 us | medium; not executed | `NtpCodec.Frac2uSecCounterexample` | `NtpCodec.USecRoundTripFixed` |
