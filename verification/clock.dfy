/**
 * src/apps/clock.c: the software wall clock. A one-second timer advances the
 * time with carry normalisation; getters expose it as decimal digit characters
 * in 24- and 12-hour form; the time counts as unset while the year is 0.
 */
module Clock {
  import opened Machine
  import opened Wrappers

  /** `clock_datetime_t` */
  datatype DateTime = DateTime(hour: Word, minute: Word, second: Word, month: Byte, day: Byte, year: Word)

  const SECONDS_PER_DAY: nat := 86400
  /** `day` is a `uint8_t`, so whole days are counted modulo 256. */
  const DAY_WRAP_SECONDS: nat := 256 * 86400

  /** Seconds since the start of day 0 of the month, in unbounded arithmetic. */
  function Elapsed(t: DateTime): nat
  {
    t.day * SECONDS_PER_DAY + t.hour * 3600 + t.minute * 60 + t.second
  }

  /** `add_seconds`, with every `uint32_t` sum and the `uint8_t` day wrapping. */
  function AddSeconds(t: DateTime, seconds: Word): (r: DateTime)
    ensures r.second < 60 && r.minute < 60 && r.hour < 24
    ensures r.month == t.month && r.year == t.year
  {
    var s0 := Wrap32(t.second + seconds);
    var (m0, s1) := if s0 >= 60 then (Wrap32(t.minute + s0 / 60), s0 % 60) else (t.minute, s0);
    var (h0, m1) := if m0 >= 60 then (Wrap32(t.hour + m0 / 60), m0 % 60) else (t.hour, m0);
    var (d1, h1) := if h0 >= 24 then (Wrap8(t.day + h0 / 24), h0 % 24) else (t.day, h0);
    t.(second := s1, minute := m1, hour := h1, day := d1)
  }

  /** Moving the whole units of a lower field into the next field up keeps the
      weighted sum: hi * (n * unit) + lo * unit is unchanged. */
  lemma Carry(hi: nat, lo: nat, n: nat, unit: nat)
    requires n > 0
    ensures hi * (n * unit) + lo * unit == (hi + lo / n) * (n * unit) + (lo % n) * unit
  {
    var q, r := lo / n, lo % n;
    assert lo == q * n + r;
    calc {
      lo * unit;
      (q * n + r) * unit;
      { MulDistrib(q * n, r, unit); }
      (q * n) * unit + r * unit;
      { MulAssoc(q, n, unit); }
      q * (n * unit) + r * unit;
    }
    MulDistrib(hi, q, n * unit);
  }

  lemma MulDistrib(a: int, b: int, c: int)
    ensures (a + b) * c == a * c + b * c
  {
  }

  lemma MulAssoc(a: int, b: int, c: int)
    ensures (a * b) * c == a * (b * c)
  {
  }

  /** The minute and hour fields `add_seconds` reaches before reducing them,
      and the day count it would reach with an unbounded day field. */
  function CarriedMinutes(t: DateTime, seconds: nat): nat { t.minute + (t.second + seconds) / 60 }
  function CarriedHours(t: DateTime, seconds: nat): nat { t.hour + CarriedMinutes(t, seconds) / 60 }
  function CarriedDays(t: DateTime, seconds: nat): nat { t.day + CarriedHours(t, seconds) / 24 }

  /** Without 32-bit overflow, each field of the result is the carried value reduced. */
  lemma AddSecondsFields(t: DateTime, seconds: Word)
    requires t.second < 0x8000_0000 && t.minute < 0x8000_0000 && t.hour < 0x8000_0000
    requires seconds < 0x8000_0000
    ensures AddSeconds(t, seconds).second == (t.second + seconds) % 60
    ensures AddSeconds(t, seconds).minute == CarriedMinutes(t, seconds) % 60
    ensures AddSeconds(t, seconds).hour == CarriedHours(t, seconds) % 24
    ensures AddSeconds(t, seconds).day == CarriedDays(t, seconds) % 256
  {
    var s0 := t.second + seconds;
    assert Wrap32(s0) == s0;
    var m0 := CarriedMinutes(t, seconds);
    assert s0 < 60 ==> m0 == t.minute;
    assert s0 >= 60 ==> Wrap32(m0) == m0;
    var h0 := CarriedHours(t, seconds);
    assert m0 < 60 ==> h0 == t.hour;
    assert m0 >= 60 ==> Wrap32(h0) == h0;
    assert h0 < 24 ==> CarriedDays(t, seconds) == t.day;
  }

  /** The carries in unbounded arithmetic lose nothing. */
  lemma CarryChain(t: DateTime, seconds: nat)
    ensures Elapsed(t) + seconds
         == CarriedDays(t, seconds) * SECONDS_PER_DAY + (CarriedHours(t, seconds) % 24) * 3600
          + (CarriedMinutes(t, seconds) % 60) * 60 + (t.second + seconds) % 60
  {
    Carry(t.minute, t.second + seconds, 60, 1);
    Carry(t.hour, CarriedMinutes(t, seconds), 60, 60);
    Carry(t.day, CarriedHours(t, seconds), 24, 3600);
  }

  /** The seconds within the day reached by the carries. */
  function CarriedRest(t: DateTime, seconds: nat): nat
  {
    (CarriedHours(t, seconds) % 24) * 3600 + (CarriedMinutes(t, seconds) % 60) * 60 + (t.second + seconds) % 60
  }

  lemma ElapsedAfter(t: DateTime, seconds: Word)
    requires t.second < 0x8000_0000 && t.minute < 0x8000_0000 && t.hour < 0x8000_0000
    requires seconds < 0x8000_0000
    ensures Elapsed(AddSeconds(t, seconds)) == (CarriedDays(t, seconds) % 256) * SECONDS_PER_DAY + CarriedRest(t, seconds)
  {
    AddSecondsFields(t, seconds);
  }

  /** Splitting a day count into whole 256-day cycles and the `uint8_t` rest. */
  lemma DayWrap(d: nat, rest: nat, before: nat, after: nat)
    requires after == (d % 256) * SECONDS_PER_DAY + rest
    requires before == d * SECONDS_PER_DAY + rest
    ensures after + (d / 256) * DAY_WRAP_SECONDS == before
    ensures before < DAY_WRAP_SECONDS ==> after == before
  {
    Carry(0, d, 256, SECONDS_PER_DAY);
    if before < DAY_WRAP_SECONDS {
      assert d * SECONDS_PER_DAY < DAY_WRAP_SECONDS;
      assert d / 256 == 0;
    }
  }

  /** Without 32-bit overflow the carries preserve the elapsed time: it grows by
      exactly `seconds`, less the whole 256-day cycles lost to the `uint8_t` day,
      and there are none while the result stays inside those 256 days. */
  lemma AddSecondsElapsed(t: DateTime, seconds: Word)
    requires t.second < 0x8000_0000 && t.minute < 0x8000_0000 && t.hour < 0x8000_0000
    requires seconds < 0x8000_0000
    ensures Elapsed(AddSeconds(t, seconds)) + (CarriedDays(t, seconds) / 256) * DAY_WRAP_SECONDS
         == Elapsed(t) + seconds
    ensures Elapsed(t) + seconds < DAY_WRAP_SECONDS ==>
      Elapsed(AddSeconds(t, seconds)) == Elapsed(t) + seconds
  {
    ElapsedAfter(t, seconds);
    CarryChain(t, seconds);
    DayWrap(CarriedDays(t, seconds), CarriedRest(t, seconds), Elapsed(t) + seconds, Elapsed(AddSeconds(t, seconds)));
  }

  /** `timer_on_alarm_cb`: one alarm, one second. */
  function Tick(t: DateTime): (r: DateTime)
    ensures t.second < 59 && t.minute < 60 && t.hour < 24 ==> r == t.(second := t.second + 1)
    ensures r.second < 60 && r.minute < 60 && r.hour < 24
  {
    assert t.second < 59 ==> Wrap32(t.second + 1) == t.second + 1;
    AddSeconds(t, 1)
  }

  /** A normalised time below 23:59:59 of day 255 just moves one second on. */
  lemma TickAdvancesOneSecond(t: DateTime)
    requires t.second < 60 && t.minute < 60 && t.hour < 24
    requires Elapsed(t) + 1 < DAY_WRAP_SECONDS
    ensures Elapsed(Tick(t)) == Elapsed(t) + 1
  {
    AddSecondsElapsed(t, 1);
  }

  // ---------------------------------------------------------------------------
  // Digit getters

  /** `v + '0'` returned as a `char` (8 bits). */
  function DigitChar(v: nat): (c: char)
    ensures v < 10 ==> '0' <= c <= '9' && c as int - '0' as int == v
  {
    ((v + '0' as int) % 256) as char
  }

  function HourTens(t: DateTime): char { DigitChar(t.hour / 10) }
  function HourOnes(t: DateTime): char { DigitChar(t.hour % 10) }
  function MinuteTens(t: DateTime): char { DigitChar(t.minute / 10) }
  function MinuteOnes(t: DateTime): char { DigitChar(t.minute % 10) }

  /** `clock_getHourTens12`: midnight shows "12"; afternoon hours drop 12. */
  function HourTens12(t: DateTime): char
  {
    if t.hour > 12 then DigitChar((t.hour - 12) / 10)
    else if t.hour == 0 then '1'
    else DigitChar(t.hour / 10)
  }

  /** `clock_getHourOnes12` */
  function HourOnes12(t: DateTime): char
  {
    if t.hour > 12 then DigitChar((t.hour - 12) % 10)
    else if t.hour == 0 then '2'
    else DigitChar(t.hour % 10)
  }

  /** The hour on a 12-hour dial: 1..12. */
  function Hour12(h: nat): (v: nat)
    requires h < 24
    ensures 1 <= v <= 12 && (v - h) % 12 == 0
  {
    if h == 0 then 12 else if h > 12 then h - 12 else h
  }

  function DigitValue(c: char): int { c as int - '0' as int }

  /** For a normalised time the 24-hour getters spell the hour and minute. */
  lemma Digits24(t: DateTime)
    requires t.hour < 24 && t.minute < 60
    ensures '0' <= HourTens(t) <= '2' && '0' <= HourOnes(t) <= '9'
    ensures '0' <= MinuteTens(t) <= '5' && '0' <= MinuteOnes(t) <= '9'
    ensures DigitValue(HourTens(t)) * 10 + DigitValue(HourOnes(t)) == t.hour
    ensures DigitValue(MinuteTens(t)) * 10 + DigitValue(MinuteOnes(t)) == t.minute
  {
  }

  /** For a normalised hour the 12-hour getters spell the 12-hour dial value. */
  lemma Digits12(t: DateTime)
    requires t.hour < 24
    ensures '0' <= HourTens12(t) <= '1' && '0' <= HourOnes12(t) <= '9'
    ensures DigitValue(HourTens12(t)) * 10 + DigitValue(HourOnes12(t)) == Hour12(t.hour)
  {
  }

  // ---------------------------------------------------------------------------
  // Reading the time

  /** `get_current_time`: `dest` is the caller's pointer (None for NULL); the
      result is the boolean returned and the destination afterwards. */
  function GetCurrentTime(current: DateTime, dest: Option<DateTime>): (r: (bool, Option<DateTime>))
    ensures r.0 <==> dest.Some? && current.year != 0
    ensures r.0 ==> r.1 == Some(current)
    ensures !r.0 ==> r.1 == dest
  {
    if dest.None? || current.year == 0 then (false, dest) else (true, Some(current))
  }

  /** `get_current_time12`: despite its name, the C getter does no 12-hour
      conversion; it copies the 24-hour time exactly as `get_current_time`
      does, and the 12-hour form exists only in the display digits
      (`Hour12`, `Digits12`). */
  function GetCurrentTime12(current: DateTime, dest: Option<DateTime>): (r: (bool, Option<DateTime>))
    ensures r.0 <==> dest.Some? && current.year != 0
    ensures r.0 ==> r.1 == Some(current)
    ensures !r.0 ==> r.1 == dest
  {
    if dest.None? || current.year == 0 then (false, dest) else (true, Some(current))
  }

  lemma TwelveHourCopyIsSame(current: DateTime, dest: Option<DateTime>)
    ensures GetCurrentTime12(current, dest) == GetCurrentTime(current, dest)
  {
  }

  /** The fallback time 2023-01-01 12:30:15. */
  const DEFAULT_TIME: DateTime := DateTime(12, 30, 15, 1, 1, 2023)

  const FETCH_ATTEMPTS: nat := 3

  /** The time after the fetch loop of `clock_task`: each attempt either fails
      (None) or parses a time that overwrites the clock, and the loop stops at
      the first success or after three attempts. */
  function AfterFetch(initial: DateTime, attempts: seq<Option<DateTime>>): (t: DateTime)
    ensures t == initial || exists i :: 0 <= i < |attempts| && i < FETCH_ATTEMPTS && attempts[i] == Some(t)
    ensures (forall i :: 0 <= i < |attempts| && i < FETCH_ATTEMPTS ==> attempts[i].None?) ==> t == initial
    ensures forall i ::
      (0 <= i < |attempts| && i < FETCH_ATTEMPTS && attempts[i].Some? && forall j :: 0 <= j < i ==> attempts[j].None?)
      ==> t == attempts[i].value
  {
    FetchFrom(initial, attempts, 0)
  }

  function FetchFrom(initial: DateTime, attempts: seq<Option<DateTime>>, i: nat): (t: DateTime)
    ensures t == initial || exists j :: i <= j < |attempts| && j < FETCH_ATTEMPTS && attempts[j] == Some(t)
    ensures (forall j :: i <= j < |attempts| && j < FETCH_ATTEMPTS ==> attempts[j].None?) ==> t == initial
    ensures forall j ::
      (i <= j < |attempts| && j < FETCH_ATTEMPTS && attempts[j].Some? && forall m :: i <= m < j ==> attempts[m].None?)
      ==> t == attempts[j].value
    decreases FETCH_ATTEMPTS - i
  {
    if i >= FETCH_ATTEMPTS || i >= |attempts| then initial
    else if attempts[i].Some? then attempts[i].value
    else FetchFrom(initial, attempts, i + 1)
  }

  /** `clock_task` start-up: a clock whose year is still 0 after fetching gets
      the default time, so the clock always ends up set. */
  function StartupTime(initial: DateTime, attempts: seq<Option<DateTime>>): (t: DateTime)
    ensures t.year != 0
    ensures AfterFetch(initial, attempts).year == 0 ==> t == DEFAULT_TIME
    ensures AfterFetch(initial, attempts).year != 0 ==> t == AfterFetch(initial, attempts)
  {
    var fetched := AfterFetch(initial, attempts);
    if fetched.year == 0 then DEFAULT_TIME else fetched
  }

  /** After start-up the getters succeed for any non-NULL destination. */
  lemma StartedClockIsReadable(initial: DateTime, attempts: seq<Option<DateTime>>, dest: DateTime)
    ensures GetCurrentTime(StartupTime(initial, attempts), Some(dest)).0
  {
  }
}
