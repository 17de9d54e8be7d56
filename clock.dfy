/**
 * Wall-clock arithmetic shared by the backend and the charts.
 *
 * Backend timestamps are integer seconds on the Brisbane wall clock.
 * Brisbane keeps no daylight saving, so this clock is a fixed offset
 * from UTC and comparing or subtracting on it is comparing or
 * subtracting instants. `strftime("%H:%M")` of such a timestamp is
 * modelled by `Label`, which yields the hour and minute that the
 * charts later parse back with `d3.timeParse("%H:%M")`.
 */
module Clock {

  const MinuteSeconds: int := 60
  const HourSeconds: int := 3600
  const DaySeconds: int := 86400

  const MinuteMs: int := 60000
  const HourMs: int := 3600000
  const DayMs: int := 86400000

  /** Brisbane's fixed offset from UTC, +10:00. */
  const BrisbaneOffset: int := 10 * HourSeconds

  /**
   * An ISO-8601 `dateTime` as `fromisoformat` reads it: wall-clock seconds,
   * with or without a UTC offset (in seconds).
   */
  datatype IsoStamp = Naive(wall: int) | WithOffset(wall: int, offset: int)

  /**
   * The Brisbane wall time of a parsed stamp: a naive stamp is taken to be
   * Brisbane time already (`replace(tzinfo=bris)`), one with an offset is
   * converted (`astimezone(bris)`).
   */
  function ToBrisbane(s: IsoStamp): (w: int)
    ensures s.Naive? ==> w == s.wall
    ensures s.WithOffset? ==> w - BrisbaneOffset == s.wall - s.offset
  {
    match s
    case Naive(wall) => wall
    case WithOffset(wall, offset) => wall - offset + BrisbaneOffset
  }

  /** The instant a parsed stamp names, in Unix seconds; a naive stamp is read as Brisbane time. */
  function Instant(s: IsoStamp): int {
    match s
    case Naive(wall) => wall - BrisbaneOffset
    case WithOffset(wall, offset) => wall - offset
  }

  /**
   * Brisbane wall seconds order stamps as their instants are ordered, and
   * their differences are differences of instants, whatever offsets the
   * stamps carry and also against a Unix timestamp; so the window filters
   * compare instants.
   */
  lemma BrisbaneKeepsOrder(s1: IsoStamp, s2: IsoStamp, epoch: int)
    ensures ToBrisbane(s1) <= ToBrisbane(s2) <==> Instant(s1) <= Instant(s2)
    ensures ToBrisbane(s1) - ToBrisbane(s2) == Instant(s1) - Instant(s2)
    ensures ToBrisbane(s1) <= FromEpoch(epoch) <==> Instant(s1) <= epoch
  {
  }

  /** The Brisbane wall time of a Unix timestamp (`fromtimestamp(x, utc).astimezone(bris)`). */
  function FromEpoch(epoch: int): (w: int)
    ensures w - BrisbaneOffset == epoch
  {
    epoch + BrisbaneOffset
  }

  /** Midnight starting the wall-clock day that contains `w`. */
  function DayStart(w: int): (d: int)
    ensures d <= w < d + DaySeconds
    ensures d % DaySeconds == 0
  {
    w - w % DaySeconds
  }

  /** An "HH:MM" label, as strftime writes it and d3.timeParse reads it. */
  datatype HourMinute = HourMinute(hour: int, minute: int)

  /** A label that `%H:%M` can produce and parse: hour 0..23, minute 0..59. */
  type ClockLabel = hm: HourMinute | 0 <= hm.hour < 24 && 0 <= hm.minute < 60
    witness HourMinute(0, 0)

  /** Minutes since midnight named by a label. */
  function MinuteOfDay(hm: ClockLabel): (m: int)
    ensures 0 <= m < 1440
  {
    hm.hour * 60 + hm.minute
  }

  /** `strftime("%H:%M")` of a wall-clock timestamp in seconds. */
  function Label(ts: int): (hm: ClockLabel)
    ensures MinuteOfDay(hm) == (ts % DaySeconds) / MinuteSeconds
  {
    var m := (ts % DaySeconds) / MinuteSeconds;
    HourMinute(m / 60, m % 60)
  }

  /** A label is determined by its minute of the day. */
  lemma LabelsEqual(a: ClockLabel, b: ClockLabel)
    requires MinuteOfDay(a) == MinuteOfDay(b)
    ensures a == b
  {
    assert a.hour == MinuteOfDay(a) / 60 && a.minute == MinuteOfDay(a) % 60;
    assert b.hour == MinuteOfDay(b) / 60 && b.minute == MinuteOfDay(b) % 60;
  }

  /** Two timestamps in the same minute of the day carry the same label, and only they. */
  lemma LabelDeterminedByMinuteOfDay(ts1: int, ts2: int)
    ensures Label(ts1) == Label(ts2) <==> (ts1 % DaySeconds) / MinuteSeconds == (ts2 % DaySeconds) / MinuteSeconds
  {
    var a, b := Label(ts1), Label(ts2);
    if MinuteOfDay(a) == MinuteOfDay(b) {
      assert a.hour == MinuteOfDay(a) / 60 && a.minute == MinuteOfDay(a) % 60;
      assert b.hour == MinuteOfDay(b) / 60 && b.minute == MinuteOfDay(b) % 60;
    }
  }
}
