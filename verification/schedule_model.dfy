/** The rule data the editors produce and the renderer reads: a rule pairs a
    day pattern (which days) with a time pattern (which hours). */
module ScheduleModel {
  import opened Wrappers
  import opened Calendar

  /** Weekday index: 0 is Sunday, 1 is Monday, ..., 6 is Saturday. */
  type Weekday = i: nat | i < 7

  /** One `{ start, end }` pair of `YYYY-MM-DD` strings; either end may be
      empty (not yet chosen in the editor) or unparseable. */
  datatype DateRange = DateRange(start: string, end: string)

  /** The four day-pattern variants. The date-range variant holds a list of
      ranges, which is the shape the renderer and both editors use. */
  datatype DayPattern =
    | Weekly(days: seq<bool>)             // days[i]: the rule applies on weekday i
    | Dates(dates: seq<string>)           // `YYYY-MM-DD` strings
    | DateRanges(ranges: seq<DateRange>)
    | DailyExcept(exceptDays: seq<bool>)  // exceptDays[i]: weekday i is excluded

  /** The `type` tag of a day pattern. */
  datatype DayPatternType = WeeklyType | DatesType | DateRangeType | DailyExceptType

  datatype TimePatternType = H24 | TimeRange | SunriseSunset

  /** `HH:mm` strings. */
  datatype TimeSlot = TimeSlot(start: string, end: string)

  /** `timeSlots` is optional in the source: absent is `None`, and an empty
      array is `Some([])`, which JavaScript still treats as present. */
  datatype TimePattern = TimePattern(kind: TimePatternType, slots: Option<seq<TimeSlot>>)

  datatype ScheduleRule = ScheduleRule(id: int, dayPattern: DayPattern, timePattern: TimePattern)

  function TypeOf(p: DayPattern): DayPatternType {
    match p
    case Weekly(_) => WeeklyType
    case Dates(_) => DatesType
    case DateRanges(_) => DateRangeType
    case DailyExcept(_) => DailyExceptType
  }

  /** What the renderer needs to run without failing: seven flags in the
      weekday variants and parseable strings in the explicit-dates variant
      (the renderer has no guard against an invalid date there). */
  predicate WellFormedDays(p: DayPattern) {
    match p
    case Weekly(days) => |days| == 7
    case DailyExcept(exceptDays) => |exceptDays| == 7
    case Dates(dates) => forall i :: 0 <= i < |dates| ==> ParseDate(dates[i]).Some?
    case DateRanges(_) => true
  }

  const NoDays: seq<bool> := [false, false, false, false, false, false, false]

  /** The pattern installed when the editor switches the day-pattern type:
      no weekday chosen, no date, one unset range, or no weekday excluded. */
  function DefaultDayPattern(t: DayPatternType): (p: DayPattern)
    ensures TypeOf(p) == t
    ensures WellFormedDays(p)
    ensures p.Weekly? ==> forall i :: 0 <= i < |p.days| ==> !p.days[i]
    ensures p.DailyExcept? ==> forall i :: 0 <= i < |p.exceptDays| ==> !p.exceptDays[i]
    ensures p.Dates? ==> p.dates == []
    ensures p.DateRanges? ==> p.ranges == [DateRange("", "")]
  {
    match t
    case WeeklyType => Weekly(NoDays)
    case DatesType => Dates([])
    case DateRangeType => DateRanges([DateRange("", "")])
    case DailyExceptType => DailyExcept(NoDays)
  }
}
