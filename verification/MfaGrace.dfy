/** The MFA enrollment grace period, computed twice: once with setDate in local time, once by
    adding milliseconds. */
module MfaGrace {
  import opened Options
  import opened Calendar

  const MAX_TIME: int := 8_640_000_000_000_000

  type Instant = t: int | -MAX_TIME <= t <= MAX_TIME

  /** None stands for NaN, the time value of an invalid Date. */
  type TimeValue = Option<Instant>

  /** LocalTZA(t, isUTC) of the standard: the offset of local time, by instant when isUTC holds and
      by local time otherwise. */
  type Zone = (int, bool) -> int

  function TimeClip(time: Option<int>): TimeValue {
    match time
    case Some(t) => if -MAX_TIME <= t <= MAX_TIME then Some(t) else None
    case None => None
  }

  function LocalTime(zone: Zone, t: int): int { t + zone(t, true) }

  function UtcTime(zone: Zone, local: int): int { local - zone(local, false) }

  function LocalDate(zone: Zone, time: TimeValue): Option<int> {
    match time
    case Some(t) => Some(DateOf(Day(LocalTime(zone, t))))
    case None => None
  }

  /** What setDate leaves in a Date. */
  function WithDate(zone: Zone, time: TimeValue, date: Option<int>): TimeValue {
    if time.None? || date.None? then None
    else TimeClip(Some(UtcTime(zone, MoveToDate(LocalTime(zone, time.value), date.value))))
  }

  /** Comparison with NaN is false. */
  predicate Before(a: TimeValue, b: TimeValue) {
    a.Some? && b.Some? && a.value < b.value
  }

  class Date {
    var time: TimeValue

    constructor (value: Option<int>)
      ensures time == TimeClip(value)
    {
      time := TimeClip(value);
    }

    method GetDate(zone: Zone) returns (date: Option<int>)
      ensures date == LocalDate(zone, time)
    {
      date := LocalDate(zone, time);
    }

    method SetDate(zone: Zone, date: Option<int>)
      modifies this
      ensures time == WithDate(zone, old(time), date)
    {
      if time.None? || date.None? {
        time := None;
      } else {
        var local := LocalTime(zone, time.value);
        var day := MakeDay(YearOf(Day(local)), MonthOf(Day(local)), date.value);
        var newDate := MakeDate(day, TimeWithinDay(local));
        time := TimeClip(Some(UtcTime(zone, newDate)));
      }
    }
  }

  function Plus(time: Option<int>, amount: int): Option<int> {
    match time
    case Some(t) => Some(t + amount)
    case None => None
  }

  /** The end of the grace period by local calendar days. */
  function CalendarEnd(zone: Zone, time: TimeValue, days: int): TimeValue {
    WithDate(zone, time, Plus(LocalDate(zone, time), days))
  }

  /** The end of the grace period by elapsed time. */
  function ElapsedEnd(time: TimeValue, days: int): TimeValue {
    TimeClip(Plus(time, days * 24 * 60 * 60 * 1000))
  }

  method IsWithinEnrollmentGracePeriod(zone: Zone, now: Instant, enrollmentDate: Date?, days: int) returns (within: bool)
    ensures within <==> enrollmentDate != null && Before(Some(now), CalendarEnd(zone, enrollmentDate.time, days))
  {
    if enrollmentDate == null { return false; }
    var current := new Date(Some(now));
    var gracePeriodEnd := new Date(enrollmentDate.time);
    var date := gracePeriodEnd.GetDate(zone);
    gracePeriodEnd.SetDate(zone, Plus(date, days));
    return Before(current.time, gracePeriodEnd.time);
  }

  datatype EnrollmentState = EnrollmentState(
    enrolled: bool, methods: seq<string>, enrollmentDate: Date?, gracePeriodEndDate: Date?, withinGracePeriod: bool)

  /** In every zone the flag compares with the calendar end, and the published end is the elapsed one.  In
      a zone whose offset never changes, the flag says whether the published end lies ahead. */
  method GetMfaEnrollmentState(zone: Zone, now: Instant, methods: seq<string>, enrollmentDate: Date?, days: int)
    returns (state: EnrollmentState)
    ensures state.enrolled <==> methods != []
    ensures state.methods == methods && state.enrollmentDate == enrollmentDate
    ensures state.withinGracePeriod <==>
              enrollmentDate != null && Before(Some(now), CalendarEnd(zone, enrollmentDate.time, days))
    ensures state.gracePeriodEndDate == null <==> enrollmentDate == null
    ensures enrollmentDate != null ==> fresh(state.gracePeriodEndDate)
    ensures enrollmentDate != null ==> state.gracePeriodEndDate.time == ElapsedEnd(enrollmentDate.time, days)
    ensures ConstantOffset(zone) ==>
              (state.withinGracePeriod <==>
               state.gracePeriodEndDate != null && Before(Some(now), state.gracePeriodEndDate.time))
  {
    var within := IsWithinEnrollmentGracePeriod(zone, now, enrollmentDate, days);
    var end: Date? := null;
    if enrollmentDate != null {
      end := new Date(Plus(enrollmentDate.time, days * 24 * 60 * 60 * 1000));
      if ConstantOffset(zone) { ConstantOffsetsAgree(zone, enrollmentDate.time, days); }
    }
    state := EnrollmentState(|methods| > 0, methods, enrollmentDate, end, within);
  }

  /** Dates reach 8.64e15 milliseconds either side of the epoch. */
  lemma TimeClipLimits(t: int)
    ensures TimeClip(Some(t)) == if -8_640_000_000_000_000 <= t <= 8_640_000_000_000_000 then Some(t) else None
    ensures TimeClip(None) == None
  {}

  // ----- when the two agree

  ghost predicate ConstantOffset(zone: Zone) {
    forall t, u, isUtc, isUtc' :: zone(t, isUtc) == zone(u, isUtc')
  }

  /** How far local clocks move over the grace period. */
  function Shift(zone: Zone, t: int, days: int): int {
    zone(t, true) - zone(LocalTime(zone, t) + days * MS_PER_DAY, false)
  }

  lemma CalendarEndIsMoved(zone: Zone, t: Instant, days: int)
    ensures CalendarEnd(zone, Some(t), days) ==
            var local := LocalTime(zone, t);
            TimeClip(Some(UtcTime(zone, MoveToDate(local, DateOf(Day(local)) + days))))
  {}

  lemma BackToUtc(zone: Zone, t: int, days: int)
    ensures UtcTime(zone, LocalTime(zone, t) + days * MS_PER_DAY) == t + days * MS_PER_DAY + Shift(zone, t, days)
  {}

  /** setDate adds whole days of elapsed time, but for the shift of the local clocks. */
  lemma CalendarEndIsShifted(zone: Zone, t: Instant, days: int)
    ensures CalendarEnd(zone, Some(t), days) == TimeClip(Some(t + days * MS_PER_DAY + Shift(zone, t, days)))
  {
    CalendarEndIsMoved(zone, t, days);
    MoveByDays(LocalTime(zone, t), days);
    BackToUtc(zone, t, days);
  }

  lemma ConstantOffsetsAgree(zone: Zone, time: TimeValue, days: int)
    requires ConstantOffset(zone)
    ensures CalendarEnd(zone, time, days) == ElapsedEnd(time, days)
  {
    if time.Some? {
      CalendarEndIsShifted(zone, time.value, days);
      assert Shift(zone, time.value, days) == 0;
    }
  }

  /** No instant lies before this end: it is out of range, or the least time there is. */
  predicate EndsBeforeTime(end: int) {
    end <= -MAX_TIME || end > MAX_TIME
  }

  lemma NothingIsBefore(end: int)
    ensures EndsBeforeTime(end) <==> forall now: Instant :: !Before(Some(now), TimeClip(Some(end)))
  {
    var least: Instant := -MAX_TIME;
    assert !EndsBeforeTime(end) ==> Before(Some(least), TimeClip(Some(end)));
  }

  /** In any zone, the two ends agree at every moment exactly when the clocks are back where they
      were, or when neither end ever lies ahead. */
  lemma EndsAgreeExactlyWhen(zone: Zone, t: Instant, days: int)
    ensures (forall now: Instant :: Before(Some(now), CalendarEnd(zone, Some(t), days))
                               <==> Before(Some(now), ElapsedEnd(Some(t), days)))
            <==> Shift(zone, t, days) == 0
                 || (EndsBeforeTime(t + days * MS_PER_DAY) && EndsBeforeTime(t + days * MS_PER_DAY + Shift(zone, t, days)))
  {
    var elapsed := t + days * MS_PER_DAY;
    var calendar := elapsed + Shift(zone, t, days);
    CalendarEndIsShifted(zone, t, days);
    NothingIsBefore(elapsed);
    NothingIsBefore(calendar);
    assert ElapsedEnd(Some(t), days) == TimeClip(Some(elapsed));
    if !EndsBeforeTime(elapsed) && !EndsBeforeTime(calendar) && elapsed != calendar {
      var now: Instant := if elapsed < calendar then elapsed else calendar;
      assert Before(Some(now), TimeClip(Some(elapsed))) != Before(Some(now), TimeClip(Some(calendar)));
    }
  }

  /** Local clocks one hour ahead from noon of the first day on. */
  function AheadFromNoon(t: int, isUtc: bool): int {
    if t < 43_200_000 then 0 else 3_600_000
  }

  /** With clocks going forward, the grace period of one day is over an hour before its published end. */
  lemma ClockChangeDisagrees()
    ensures CalendarEnd(AheadFromNoon, Some(0), 1) == Some(82_800_000)
    ensures ElapsedEnd(Some(0), 1) == Some(86_400_000)
  {
    CalendarEndIsShifted(AheadFromNoon, 0, 1);
  }
}
