/** Instants in microseconds since the first day of year 1, and the UTC datetimes that the database driver makes of them. */
module Calendar {
  import opened Common
  import opened CursorCodec

  // ---------- days ----------

  datatype Date = Date(year: nat, month: nat, day: nat)

  predicate ValidDate(d: Date) {
    1 <= d.year && 1 <= d.month <= 12 && 1 <= d.day <= DaysIn(d.year, d.month)
  }

  function NextDay(d: Date): Date {
    if d.day < DaysIn(d.year, d.month) then d.(day := d.day + 1)
    else if d.month < 12 then Date(d.year, d.month + 1, 1)
    else Date(d.year + 1, 1, 1)
  }

  /** The date n days after the first of January of year 1. */
  function DateOf(n: nat): Date {
    if n == 0 then Date(1, 1, 1) else NextDay(DateOf(n - 1))
  }

  function DaysBeforeMonth(year: nat, month: nat): nat {
    if month <= 1 then 0 else DaysBeforeMonth(year, month - 1) + DaysIn(year, month - 1)
  }

  function DaysBeforeYear(year: nat): nat {
    if year <= 1 then 0 else DaysBeforeYear(year - 1) + DaysBeforeMonth(year - 1, 13)
  }

  /** A year has 365 days, a leap year 366. */
  lemma YearLength(year: nat)
    ensures DaysBeforeMonth(year, 13) == 337 + DaysIn(year, 2)
  {
    var february := DaysIn(year, 2);
    assert DaysBeforeMonth(year, 2) == 31;
    assert DaysBeforeMonth(year, 4) == 62 + february;
    assert DaysBeforeMonth(year, 6) == 123 + february;
    assert DaysBeforeMonth(year, 8) == 184 + february;
    assert DaysBeforeMonth(year, 10) == 245 + february;
    assert DaysBeforeMonth(year, 12) == 306 + february;
  }

  /** How many days the date lies after the first of January of year 1. */
  function Ordinal(d: Date): nat
    requires ValidDate(d)
  {
    DaysBeforeYear(d.year) + DaysBeforeMonth(d.year, d.month) + d.day - 1
  }

  lemma NextDayIsNext(d: Date)
    requires ValidDate(d)
    ensures ValidDate(NextDay(d)) && Ordinal(NextDay(d)) == Ordinal(d) + 1
  {
  }

  lemma {:induction false} OrdinalOfDate(n: nat)
    ensures ValidDate(DateOf(n)) && Ordinal(DateOf(n)) == n
  {
    if n > 0 {
      OrdinalOfDate(n - 1);
      NextDayIsNext(DateOf(n - 1));
    }
  }

  // ---------- microseconds ----------

  const SECOND: nat := 1_000_000
  const MINUTE: nat := 60 * SECOND
  const HOUR: nat := 60 * MINUTE
  const DAY: nat := 24 * HOUR

  const UTC := Offset(false, Clock(0, 0, 0, 0))

  function ClockOf(micros: nat): Clock {
    Clock(micros / HOUR, micros / MINUTE % 60, micros / SECOND % 60, micros % SECOND)
  }

  function Micros(c: Clock): nat {
    c.hour * HOUR + c.minute * MINUTE + c.second * SECOND + c.micro
  }

  /** Datetimes run to the end of year 9999. */
  predicate Representable(t: int) {
    t >= 0 && DateOf(t / DAY).year <= 9999
  }

  /** The datetime of a timestamp column, which the driver gives in UTC. */
  function DateTimeOf(t: nat): DateTime {
    AtDay(t / DAY, t % DAY)
  }

  function AtDay(days: nat, rest: nat): DateTime {
    var d := DateOf(days);
    DateTime(d.year, d.month, d.day, ClockOf(rest), Some(UTC))
  }

  /** The instant that a datetime with an offset denotes; the database compares instants. */
  function InstantOf(t: DateTime): int
    requires CursorCodec.Valid(t)
  {
    var shift := if t.offset.None? then 0
                 else if t.offset.value.negative then -(Micros(t.offset.value.size) as int)
                 else Micros(t.offset.value.size);
    Ordinal(Date(t.year, t.month, t.day)) * DAY + Micros(t.clock) - shift
  }

  /** East of Greenwich the same clock shows an earlier instant, west of it a later one. */
  lemma OffsetsShiftTheInstant(t: DateTime, size: Clock)
    requires CursorCodec.Valid(t) && t.offset == Some(UTC) && ValidClock(size) && size != Clock(0, 0, 0, 0)
    ensures CursorCodec.Valid(t.(offset := Some(Offset(false, size)))) && CursorCodec.Valid(t.(offset := Some(Offset(true, size))))
    ensures InstantOf(t.(offset := Some(Offset(false, size)))) == InstantOf(t) - Micros(size)
    ensures InstantOf(t.(offset := Some(Offset(true, size)))) == InstantOf(t) + Micros(size)
    ensures InstantOf(t.(offset := None)) == InstantOf(t)
  {
  }

  lemma ClockReadsBack(micros: nat)
    requires micros < DAY
    ensures ValidClock(ClockOf(micros)) && Micros(ClockOf(micros)) == micros
  {
    assert micros / MINUTE == micros / SECOND / 60 && micros / HOUR == micros / MINUTE / 60;
  }

  lemma InstantOfDayAndRest(days: nat, rest: nat)
    requires DateOf(days).year <= 9999 && rest < DAY
    ensures CursorCodec.Valid(AtDay(days, rest)) && InstantOf(AtDay(days, rest)) == days * DAY + rest
  {
    OrdinalOfDate(days);
    ClockReadsBack(rest);
  }

  lemma DaysAndRest(t: nat)
    ensures t / DAY * DAY + t % DAY == t
  {
  }

  /** A timestamp of the database is a valid datetime and denotes itself. */
  lemma DateTimeReadsBack(t: nat)
    requires Representable(t)
    ensures CursorCodec.Valid(DateTimeOf(t)) && InstantOf(DateTimeOf(t)) == t
  {
    DaysAndRest(t);
    InstantOfDayAndRest(t / DAY, t % DAY);
  }
}
