/**
 * The schedule matcher: whether a weekly or one-off window of a session's
 * schedule is open at a given instant (app.py `_weekly_match`,
 * `_oneoff_match`, `_session_is_scheduled_active`).
 *
 * The clock is a parameter. Python reads `datetime.now()` for weekly
 * entries and `time.time()` for one-off entries; both readings are given
 * here in microseconds.
 */
module Schedule {
  import opened Common

  const MicrosPerSecond := 1_000_000
  const MicrosPerMinute := 60 * MicrosPerSecond
  const MicrosPerHour := 60 * MicrosPerMinute

  /**
   * A reading of the clock: the local weekday (0 is Monday, as
   * `datetime.weekday()`), the local time of day in microseconds since
   * midnight, and POSIX time in microseconds.
   */
  datatype Clock = Clock(weekday: int, dayMicros: int, epochMicros: int)

  /**
   * The `start` or `end` of a weekly entry once Python has split its text
   * at ':' and converted both parts with `int()`: the key is absent
   * (`Default`), two integers came out, or the text did not have that
   * shape and `int()` or the unpacking raised (`Malformed`).
   */
  datatype ClockField = Default | HourMinute(hour: int, minute: int) | Malformed

  /**
   * A schedule entry. `OneOff` carries its two instants as POSIX
   * microseconds, `None` when `startISO`/`endISO` is missing, empty or not
   * parseable. Any other `type` value is `Unknown`.
   */
  datatype Entry =
    | Weekly(days: seq<int>, start: ClockField, end: ClockField)
    | OneOff(startAt: Option<int>, endAt: Option<int>)
    | Unknown(kind: string)

  /**
   * The instant `h:m:00.000000` of the current day, or `None` where
   * `datetime.replace` raises because the hour or minute is out of range.
   */
  function FieldMicros(f: ClockField, defaultHour: int, defaultMinute: int): (r: Option<int>)
    requires 0 <= defaultHour < 24 && 0 <= defaultMinute < 60
    ensures r.Some? ==> 0 <= r.value < 24 * MicrosPerHour && r.value % MicrosPerMinute == 0
    ensures f.Malformed? ==> r == None
    ensures f.Default? ==> r == Some(defaultHour * MicrosPerHour + defaultMinute * MicrosPerMinute)
    ensures f.HourMinute? ==> (r.Some? <==> 0 <= f.hour < 24 && 0 <= f.minute < 60)
    ensures f.HourMinute? && r.Some? ==> r.value == f.hour * MicrosPerHour + f.minute * MicrosPerMinute
  {
    match f
    case Default =>
      InstantInDay(defaultHour, defaultMinute);
      Some(defaultHour * MicrosPerHour + defaultMinute * MicrosPerMinute)
    case HourMinute(h, m) =>
      if 0 <= h < 24 && 0 <= m < 60 then
        InstantInDay(h, m);
        Some(h * MicrosPerHour + m * MicrosPerMinute)
      else None
    case Malformed => None
  }

  /** A valid clock time is an instant within the day, on a whole minute. */
  lemma InstantInDay(h: int, m: int)
    requires 0 <= h < 24 && 0 <= m < 60
    ensures 0 <= h * MicrosPerHour + m * MicrosPerMinute < 24 * MicrosPerHour
    ensures (h * MicrosPerHour + m * MicrosPerMinute) % MicrosPerMinute == 0
  {
    assert h * MicrosPerHour + m * MicrosPerMinute == (h * 60 + m) * MicrosPerMinute;
  }

  /**
   * The instant `h:m` of a valid clock time reads back as hour `h` and
   * minute `m`: distinct times of the day give distinct instants.
   */
  lemma ClockReading(h: int, m: int)
    requires 0 <= h < 24 && 0 <= m < 60
    ensures (h * MicrosPerHour + m * MicrosPerMinute) / MicrosPerHour == h
    ensures (h * MicrosPerHour + m * MicrosPerMinute) % MicrosPerHour / MicrosPerMinute == m
  {
    var x := h * MicrosPerHour + m * MicrosPerMinute;
    assert 0 <= m * MicrosPerMinute < MicrosPerHour;
    assert x / MicrosPerHour == h && x % MicrosPerHour == m * MicrosPerMinute;
  }

  /** Start of a weekly window; `"00:00"` when absent. */
  function StartMicros(f: ClockField): Option<int> { FieldMicros(f, 0, 0) }

  /** End of a weekly window; `"23:59"` when absent. */
  function EndMicros(f: ClockField): Option<int> { FieldMicros(f, 23, 59) }

  /**
   * `_weekly_match`: today is one of `days` and the time of day lies in
   * [start, end], both ends included; a bad field makes it false.
   */
  predicate WeeklyMatch(days: seq<int>, start: ClockField, end: ClockField, now: Clock)
    ensures WeeklyMatch(days, start, end, now) ==>
      now.weekday in days && !start.Malformed? && !end.Malformed? && 0 <= now.dayMicros < 24 * MicrosPerHour
  {
    if now.weekday !in days then false
    else
      match (StartMicros(start), EndMicros(end))
      case (Some(s), Some(e)) => s <= now.dayMicros <= e
      case _ => false
  }

  /** `_oneoff_match`: both instants present and `start <= now <= end`. */
  predicate OneOffMatch(startAt: Option<int>, endAt: Option<int>, now: Clock)
    ensures OneOffMatch(startAt, endAt, now) ==> startAt.Some? && endAt.Some? && startAt.value <= endAt.value
  {
    match (startAt, endAt)
    case (Some(s), Some(e)) => s <= now.epochMicros <= e
    case _ => false
  }

  /** One entry of a schedule, dispatched on its `type`. */
  predicate EntryMatches(e: Entry, now: Clock) {
    match e
    case Weekly(days, start, end) => WeeklyMatch(days, start, end, now)
    case OneOff(s, t) => OneOffMatch(s, t, now)
    case Unknown(_) => false
  }

  /** `_session_is_scheduled_active`: the entries are tried in order until one matches. */
  predicate ScheduledActive(entries: seq<Entry>, now: Clock)
    ensures ScheduledActive(entries, now) ==> exists i :: 0 <= i < |entries| && !entries[i].Unknown?
  {
    if entries == [] then false
    else EntryMatches(entries[0], now) || ScheduledActive(entries[1..], now)
  }

  /** The `for ent in entries` loop of `_session_is_scheduled_active`, returning at the first match. */
  method IsScheduledActive(entries: seq<Entry>, now: Clock) returns (b: bool)
    ensures b == ScheduledActive(entries, now)
  {
    var i := 0;
    while i < |entries|
      invariant 0 <= i <= |entries|
      invariant ScheduledActive(entries, now) == ScheduledActive(entries[i..], now)
    {
      if EntryMatches(entries[i], now) {
        return true;
      }
      assert entries[i..][1..] == entries[i + 1..];
      i := i + 1;
    }
    return false;
  }

  /** A schedule is active exactly when one of its entries matches; an empty one never is. */
  lemma {:induction false} ScheduledActiveIff(entries: seq<Entry>, now: Clock)
    ensures ScheduledActive(entries, now) <==> exists i :: 0 <= i < |entries| && EntryMatches(entries[i], now)
  {
    if entries != [] {
      ScheduledActiveIff(entries[1..], now);
      assert forall i :: 1 <= i < |entries| ==> entries[i] == entries[1..][i - 1];
      if ScheduledActive(entries[1..], now) {
        var i :| 0 <= i < |entries[1..]| && EntryMatches(entries[1..][i], now);
        assert EntryMatches(entries[i + 1], now);
      }
    }
  }

  /** Entries of an unknown type never make a schedule active, wherever they stand. */
  lemma UnknownEntriesIgnored(entries: seq<Entry>, kind: string, k: nat, now: Clock)
    requires k <= |entries|
    ensures ScheduledActive(entries[..k] + [Unknown(kind)] + entries[k..], now) == ScheduledActive(entries, now)
  {
    var longer := entries[..k] + [Unknown(kind)] + entries[k..];
    ScheduledActiveIff(entries, now);
    ScheduledActiveIff(longer, now);
    if ScheduledActive(entries, now) {
      var i :| 0 <= i < |entries| && EntryMatches(entries[i], now);
      if i < k { assert longer[i] == entries[i]; } else { assert longer[i + 1] == entries[i]; }
    }
    if ScheduledActive(longer, now) {
      var i :| 0 <= i < |longer| && EntryMatches(longer[i], now);
      if i < k { assert longer[i] == entries[i]; } else { assert i != k; assert longer[i] == entries[i - 1]; }
    }
  }

  /**
   * The weekly rule in full, for a start and an end given as hours and
   * minutes: the weekday is listed, both are valid clock times of the day,
   * and now lies between them, both ends included.
   */
  lemma WeeklyMatchIff(days: seq<int>, sh: int, sm: int, eh: int, em: int, now: Clock)
    ensures WeeklyMatch(days, HourMinute(sh, sm), HourMinute(eh, em), now) <==>
      now.weekday in days
      && 0 <= sh < 24 && 0 <= sm < 60 && 0 <= eh < 24 && 0 <= em < 60
      && sh * MicrosPerHour + sm * MicrosPerMinute <= now.dayMicros <= eh * MicrosPerHour + em * MicrosPerMinute
  {
  }

  /** An end earlier than the start is not wrapped over midnight: the entry never matches. */
  lemma WeeklyInvertedNeverMatches(days: seq<int>, sh: int, sm: int, eh: int, em: int, now: Clock)
    requires eh * 60 + em < sh * 60 + sm
    ensures !WeeklyMatch(days, HourMinute(sh, sm), HourMinute(eh, em), now)
  {
  }

  /** A malformed start or end fails closed. */
  lemma WeeklyMalformedNeverMatches(days: seq<int>, f: ClockField, now: Clock)
    ensures !WeeklyMatch(days, Malformed, f, now) && !WeeklyMatch(days, f, Malformed, now)
  {
  }

  /**
   * With both fields absent the window is 00:00 to 23:59:00 on the listed
   * days; the last 59 seconds of the day are outside it.
   */
  lemma WeeklyDefaults(days: seq<int>, now: Clock)
    requires 0 <= now.dayMicros
    ensures WeeklyMatch(days, Default, Default, now) <==>
      now.weekday in days && now.dayMicros <= 23 * MicrosPerHour + 59 * MicrosPerMinute
  {
  }

  /** Both ends of the window are included, and a minute after the end is outside it. */
  lemma WeeklyBoundaries(days: seq<int>, sh: int, sm: int, eh: int, em: int, weekday: int, epoch: int)
    requires weekday in days
    requires 0 <= sh < 24 && 0 <= sm < 60 && 0 <= eh < 24 && 0 <= em < 60
    requires sh * 60 + sm <= eh * 60 + em
    ensures WeeklyMatch(days, HourMinute(sh, sm), HourMinute(eh, em),
                        Clock(weekday, sh * MicrosPerHour + sm * MicrosPerMinute, epoch))
    ensures WeeklyMatch(days, HourMinute(sh, sm), HourMinute(eh, em),
                        Clock(weekday, eh * MicrosPerHour + em * MicrosPerMinute, epoch))
    ensures !WeeklyMatch(days, HourMinute(sh, sm), HourMinute(eh, em),
                         Clock(weekday, eh * MicrosPerHour + em * MicrosPerMinute + MicrosPerMinute, epoch))
  {
  }

  /**
   * The one-off window includes both of its instants and nothing beyond
   * them, and an entry missing either instant never matches.
   */
  lemma OneOffBoundaries(s: int, e: int, weekday: int, dayMicros: int, now: Clock)
    requires s <= e
    ensures OneOffMatch(Some(s), Some(e), Clock(weekday, dayMicros, s))
    ensures OneOffMatch(Some(s), Some(e), Clock(weekday, dayMicros, e))
    ensures !OneOffMatch(Some(s), Some(e), Clock(weekday, dayMicros, s - 1))
    ensures !OneOffMatch(Some(s), Some(e), Clock(weekday, dayMicros, e + 1))
    ensures !OneOffMatch(None, Some(e), now) && !OneOffMatch(Some(s), None, now) && !OneOffMatch(None, None, now)
  {
  }
}
