/**
 * Instants and Japan Standard Time calendar dates.
 *
 * An instant is an absolute point in time: microseconds since the Unix epoch
 * (UTC). The ingestion engine reasons in calendar dates of Asia/Tokyo, which
 * has a fixed offset of +09:00 and no daylight saving time, so a date is the
 * floor of the shifted instant divided by the length of a day.
 */
module JstTime {

  type Instant = int
  /** Days since 1970-01-01 in Asia/Tokyo. */
  type Date = int

  const MicrosPerSecond: int := 1_000_000
  const MicrosPerDay: int := 86_400_000_000
  /** UTC offset of Asia/Tokyo, in microseconds. */
  const JstOffset: int := 32_400_000_000

  /** The Asia/Tokyo calendar date of an instant (Python's `dt.date()` for a JST datetime). */
  function DateOf(t: Instant): Date {
    (t + JstOffset) / MicrosPerDay
  }

  /** 00:00:00.000000 JST of date `d`. */
  function StartOfDay(d: Date): (t: Instant)
    ensures DateOf(t) == d
  {
    DivOfMultiple(d);
    d * MicrosPerDay - JstOffset
  }

  /** 23:59:59.999999 JST of date `d` (`datetime.max.time()`). */
  function EndOfDay(d: Date): (t: Instant)
    ensures DateOf(t) == d
    ensures t == StartOfDay(d) + MicrosPerDay - 1
  {
    DivOfMultiple(d);
    d * MicrosPerDay + MicrosPerDay - 1 - JstOffset
  }

  lemma DivOfMultiple(d: Date)
    ensures (d * MicrosPerDay) / MicrosPerDay == d
    ensures (d * MicrosPerDay + MicrosPerDay - 1) / MicrosPerDay == d
  {
    DivIsUnique(d * MicrosPerDay, d);
    DivIsUnique(d * MicrosPerDay + MicrosPerDay - 1, d);
  }

  /** Euclidean division by a day is characterised by its bounds. */
  lemma DivIsUnique(x: int, q: int)
    requires q * MicrosPerDay <= x < q * MicrosPerDay + MicrosPerDay
    ensures x / MicrosPerDay == q
  {
  }

  /** Every instant lies between the start and the end of its own date. */
  lemma WithinItsDay(t: Instant)
    ensures StartOfDay(DateOf(t)) <= t <= EndOfDay(DateOf(t))
  {
  }

  /** An instant inside the bounds of a date has that date. */
  lemma DateFromBounds(t: Instant, d: Date)
    requires StartOfDay(d) <= t <= EndOfDay(d)
    ensures DateOf(t) == d
  {
    DivIsUnique(t + JstOffset, d);
  }

  /** The date is monotone in the instant. */
  lemma DateMonotone(s: Instant, t: Instant)
    requires s <= t
    ensures DateOf(s) <= DateOf(t)
  {
    WithinItsDay(s);
    WithinItsDay(t);
  }

  /**
   * Moving an instant back by whole days moves its date back by as many days
   * (JST has no daylight saving time, so `timedelta(days=n)` is exact).
   */
  lemma DateShift(t: Instant, n: int)
    ensures DateOf(t - n * MicrosPerDay) == DateOf(t) - n
  {
    WithinItsDay(t);
    DateFromBounds(t - n * MicrosPerDay, DateOf(t) - n);
  }
}
