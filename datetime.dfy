/** The part of JavaScript's `Date` that the screen uses, over time values:
    integer milliseconds since 1970-01-01T00:00:00.000Z. Only the UTC field
    semantics are modelled (`getUTC*`, `setUTCHours`, `setUTCMinutes`,
    `toISOString`, and `toLocaleTimeString` with `timeZone: 'UTC'`). */
module DateTime {
  import opened Text
  import opened Calendar

  const MS_PER_SECOND := 1000
  const MS_PER_MINUTE := 60000
  const MS_PER_HOUR := 3600000
  const MS_PER_DAY := 86400000

  /** Day number of 1970-01-01, the origin of time values. */
  const EPOCH_DAY := 719528
  /** Day number of 10000-01-01, the first day whose year `toISOString`
      cannot print with four digits. */
  const END_DAY := 3652425

  lemma EpochAndEndDays()
    ensures EPOCH_DAY == DaysFromCivil(CivilDate(1970, 1, 1))
    ensures END_DAY == DaysBeforeYear(10000)
  {
    DaysBeforeYearClosedForm(1970);
    DaysBeforeYearClosedForm(10000);
  }

  /** The time value of 0000-01-01T00:00:00.000Z. */
  const MIN_TIME := -62167219200000
  /** The time value of 10000-01-01T00:00:00.000Z. */
  const END_TIME := 253402300800000

  lemma TimeBounds()
    ensures MIN_TIME == -EPOCH_DAY * MS_PER_DAY
    ensures END_TIME == (END_DAY - EPOCH_DAY) * MS_PER_DAY
  {
  }

  /** A time value whose UTC year has four digits: from 0000-01-01T00:00Z up
      to, not including, 10000-01-01T00:00Z. */
  type Instant = t: int | MIN_TIME <= t < END_TIME

  /** ECMAScript's MakeDate(MakeDay(...), MakeTime(h, m, s, ms)) for a day
      counted from the epoch. */
  function MakeTimeValue(epochDay: int, h: int, m: int, s: int, ms: int): int {
    epochDay * MS_PER_DAY + h * MS_PER_HOUR + m * MS_PER_MINUTE + s * MS_PER_SECOND + ms
  }

  function UtcHours(t: int): (h: int)
    ensures 0 <= h < 24
  {
    t % MS_PER_DAY / MS_PER_HOUR
  }

  function UtcMinutes(t: int): (m: int)
    ensures 0 <= m < 60
  {
    t % MS_PER_HOUR / MS_PER_MINUTE
  }

  function UtcSeconds(t: int): (s: int)
    ensures 0 <= s < 60
  {
    t % MS_PER_MINUTE / MS_PER_SECOND
  }

  function UtcMilliseconds(t: int): (ms: int)
    ensures 0 <= ms < 1000
  {
    t % MS_PER_SECOND
  }

  lemma {:induction false} MulAtLeast(x: nat, k: nat)
    requires x >= 1
    ensures x * k >= k
  {
    if x > 1 {
      MulAtLeast(x - 1, k);
      assert x * k == (x - 1) * k + k;
    }
  }

  /** Euclidean quotient and remainder are the unique such pair. */
  lemma DivModUnique(a: int, k: int, q: int, r: int)
    requires k > 0 && a == q * k + r && 0 <= r < k
    ensures a / k == q && a % k == r
  {
    var q', r' := a / k, a % k;
    assert a == q' * k + r';
    if q' > q {
      assert (q' - q) * k == r - r';
      MulAtLeast(q' - q, k);
    } else if q' < q {
      assert (q - q') * k == r' - r;
      MulAtLeast(q - q', k);
    }
  }

  /** A time value is its day plus its four time-of-day fields. */
  lemma TimeValueFields(t: int)
    ensures t == MakeTimeValue(t / MS_PER_DAY, UtcHours(t), UtcMinutes(t), UtcSeconds(t), UtcMilliseconds(t))
  {
    var d, w := t / MS_PER_DAY, t % MS_PER_DAY;
    var h, w1 := w / MS_PER_HOUR, w % MS_PER_HOUR;
    var m, w2 := w1 / MS_PER_MINUTE, w1 % MS_PER_MINUTE;
    var sec, ms := w2 / MS_PER_SECOND, w2 % MS_PER_SECOND;
    DivModUnique(t, MS_PER_HOUR, d * 24 + h, w1);
    DivModUnique(t, MS_PER_MINUTE, d * 1440 + h * 60 + m, w2);
    DivModUnique(t, MS_PER_SECOND, d * 86400 + h * 3600 + m * 60 + sec, ms);
  }

  /** Composing a time value from in-range fields and reading the fields back
      gives the same fields. */
  lemma FieldsOfMakeTimeValue(d: int, h: int, m: int, s: int, ms: int)
    requires 0 <= h < 24 && 0 <= m < 60 && 0 <= s < 60 && 0 <= ms < 1000
    ensures var t := MakeTimeValue(d, h, m, s, ms);
      t / MS_PER_DAY == d && UtcHours(t) == h && UtcMinutes(t) == m
      && UtcSeconds(t) == s && UtcMilliseconds(t) == ms
  {
    var t := MakeTimeValue(d, h, m, s, ms);
    var w1 := m * MS_PER_MINUTE + s * MS_PER_SECOND + ms;
    DivModUnique(t, MS_PER_DAY, d, h * MS_PER_HOUR + w1);
    DivModUnique(h * MS_PER_HOUR + w1, MS_PER_HOUR, h, w1);
    DivModUnique(t, MS_PER_HOUR, d * 24 + h, w1);
    DivModUnique(w1, MS_PER_MINUTE, m, s * MS_PER_SECOND + ms);
    DivModUnique(t, MS_PER_MINUTE, d * 1440 + h * 60 + m, s * MS_PER_SECOND + ms);
    DivModUnique(s * MS_PER_SECOND + ms, MS_PER_SECOND, s, ms);
    DivModUnique(t, MS_PER_SECOND, d * 86400 + h * 3600 + m * 60 + s, ms);
  }

  /** The day number (from 0000-01-01) of an instant. */
  function DayNumber(t: Instant): (n: nat)
    ensures n < END_DAY
  {
    var q := t / MS_PER_DAY;
    DivModUnique(t, MS_PER_DAY, q, t % MS_PER_DAY);
    DayBounds(t, q);
    q + EPOCH_DAY
  }

  lemma DayBounds(t: Instant, q: int)
    requires q * MS_PER_DAY <= t < q * MS_PER_DAY + MS_PER_DAY
    ensures -EPOCH_DAY <= q < END_DAY - EPOCH_DAY
  {
    TimeBounds();
  }

  /** The UTC calendar date of an instant (`getUTCFullYear`, `getUTCMonth` + 1,
      `getUTCDate`). */
  function UtcDate(t: Instant): (c: CivilDate)
    ensures ValidDate(c) && c.year < 10000
    ensures DaysFromCivil(c) == DayNumber(t)
  {
    var c := CivilFromDays(DayNumber(t));
    YearBelowEnd(c);
    c
  }

  /** A date before END_DAY has a four-digit year. */
  lemma YearBelowEnd(c: CivilDate)
    requires ValidDate(c) && DaysFromCivil(c) < END_DAY
    ensures c.year < 10000
  {
    EpochAndEndDays();
    if c.year > 10000 {
      DaysBeforeYearMono(10000, c.year);
    }
  }

  /** A date from 0000-01-01 to 9999-12-31 lies before END_DAY. */
  lemma DayNumberBelowEnd(c: CivilDate)
    requires ValidDate(c) && c.year < 10000
    ensures DaysFromCivil(c) < END_DAY
  {
    EpochAndEndDays();
    if c.year + 1 < 10000 {
      DaysBeforeYearMono(c.year, 10000);
    }
  }

  /** The instant a date and in-range time-of-day fields denote in UTC. */
  function UtcInstant(c: CivilDate, h: int, m: int, s: int, ms: int): (t: Instant)
    requires ValidDate(c) && c.year < 10000
    requires 0 <= h < 24 && 0 <= m < 60 && 0 <= s < 60 && 0 <= ms < 1000
    ensures UtcDate(t) == c && UtcHours(t) == h && UtcMinutes(t) == m
    ensures UtcSeconds(t) == s && UtcMilliseconds(t) == ms
  {
    DayNumberBelowEnd(c);
    FieldsOfMakeTimeValue(DaysFromCivil(c) - EPOCH_DAY, h, m, s, ms);
    var t := MakeTimeValue(DaysFromCivil(c) - EPOCH_DAY, h, m, s, ms);
    DaysFromCivilInjective(UtcDate(t), c);
    t
  }

  /** An instant is determined by its UTC date and time-of-day fields. */
  lemma InstantFromFields(t: Instant)
    ensures t == UtcInstant(UtcDate(t), UtcHours(t), UtcMinutes(t), UtcSeconds(t), UtcMilliseconds(t))
  {
    TimeValueFields(t);
  }

  /** `d.setUTCHours(h)`: sets the UTC hour, keeping the UTC date, minutes,
      seconds and milliseconds. */
  function SetUTCHours(t: Instant, h: int): (r: Instant)
    requires 0 <= h < 24
    ensures UtcDate(r) == UtcDate(t) && UtcHours(r) == h && UtcMinutes(r) == UtcMinutes(t)
    ensures UtcSeconds(r) == UtcSeconds(t) && UtcMilliseconds(r) == UtcMilliseconds(t)
  {
    UtcInstant(UtcDate(t), h, UtcMinutes(t), UtcSeconds(t), UtcMilliseconds(t))
  }

  /** `d.setUTCHours(h, m)`: sets the UTC hour and minute, keeping the UTC
      date, seconds and milliseconds. */
  function SetUTCHoursMinutes(t: Instant, h: int, m: int): (r: Instant)
    requires 0 <= h < 24 && 0 <= m < 60
    ensures UtcDate(r) == UtcDate(t) && UtcHours(r) == h && UtcMinutes(r) == m
    ensures UtcSeconds(r) == UtcSeconds(t) && UtcMilliseconds(r) == UtcMilliseconds(t)
  {
    UtcInstant(UtcDate(t), h, m, UtcSeconds(t), UtcMilliseconds(t))
  }

  /** `d.setUTCMinutes(m)`: sets the UTC minute, keeping the UTC date, hour,
      seconds and milliseconds. */
  function SetUTCMinutes(t: Instant, m: int): (r: Instant)
    requires 0 <= m < 60
    ensures UtcDate(r) == UtcDate(t) && UtcHours(r) == UtcHours(t) && UtcMinutes(r) == m
    ensures UtcSeconds(r) == UtcSeconds(t) && UtcMilliseconds(r) == UtcMilliseconds(t)
  {
    UtcInstant(UtcDate(t), UtcHours(t), m, UtcSeconds(t), UtcMilliseconds(t))
  }

  /** The `YYYY-MM-DD` form of a date. */
  function IsoDate(c: CivilDate): (s: string)
    requires ValidDate(c) && c.year < 10000
    ensures |s| == 10 && 'T' !in s
  {
    Pad4(c.year) + "-" + Pad2(c.month) + "-" + Pad2(c.day)
  }

  /** `d.toISOString()`: `YYYY-MM-DDTHH:mm:ss.sssZ` in UTC. */
  function ToISOString(t: Instant): (s: string)
    ensures |s| == 24 && s[..10] == IsoDate(UtcDate(t)) && s[10] == 'T'
  {
    IsoDate(UtcDate(t)) + "T" + Pad2(UtcHours(t)) + ":" + Pad2(UtcMinutes(t)) + ":"
      + Pad2(UtcSeconds(t)) + "." + Pad3(UtcMilliseconds(t)) + "Z"
  }

  /** Adding one hour to an instant: before 23:00 it moves the UTC hour on by
      one within the day; from 23:00 it gives 00:MM of the next UTC day. The
      minute and smaller fields stay. */
  lemma AddHour(t: Instant)
    ensures UtcMinutes(t + MS_PER_HOUR) == UtcMinutes(t)
    ensures UtcHours(t) < 23 ==>
      t + MS_PER_HOUR < END_TIME && UtcDate(t + MS_PER_HOUR) == UtcDate(t)
      && UtcHours(t + MS_PER_HOUR) == UtcHours(t) + 1
    ensures UtcHours(t) == 23 ==> UtcHours(t + MS_PER_HOUR) == 0
    ensures UtcHours(t) == 23 && t + MS_PER_HOUR < END_TIME ==>
      UtcDate(t + MS_PER_HOUR) == NextDay(UtcDate(t))
  {
    var c, h, m, s, ms := UtcDate(t), UtcHours(t), UtcMinutes(t), UtcSeconds(t), UtcMilliseconds(t);
    InstantFromFields(t);
    if h < 23 {
      AddHourSameDay(c, h, m, s, ms);
      var e := UtcInstant(c, h + 1, m, s, ms);
      assert t + MS_PER_HOUR == e;
    } else {
      AddHourNextDay(c, m, s, ms);
    }
  }

  lemma AddHourSameDay(c: CivilDate, h: int, m: int, s: int, ms: int)
    requires ValidDate(c) && c.year < 10000
    requires 0 <= h < 23 && 0 <= m < 60 && 0 <= s < 60 && 0 <= ms < 1000
    ensures UtcInstant(c, h, m, s, ms) + MS_PER_HOUR == UtcInstant(c, h + 1, m, s, ms)
  {
  }

  lemma AddHourNextDay(c: CivilDate, m: int, s: int, ms: int)
    requires ValidDate(c) && c.year < 10000
    requires 0 <= m < 60 && 0 <= s < 60 && 0 <= ms < 1000
    ensures var e := UtcInstant(c, 23, m, s, ms) + MS_PER_HOUR;
      UtcHours(e) == 0 && UtcMinutes(e) == m
      && (e < END_TIME ==> UtcDate(e) == NextDay(c))
  {
    var d := DaysFromCivil(c) - EPOCH_DAY;
    var e := UtcInstant(c, 23, m, s, ms) + MS_PER_HOUR;
    assert e == MakeTimeValue(d + 1, 0, m, s, ms);
    FieldsOfMakeTimeValue(d + 1, 0, m, s, ms);
    if e < END_TIME {
      NextDayIsNext(c);
      DaysFromCivilInjective(UtcDate(e), NextDay(c));
    }
  }
}
