/**
 * The values the Date extensions work on: an instant, the components a calendar
 * derives from it, and the calendar itself. Foundation's `Calendar` is not modelled:
 * it is a value of type `Calendar` whose fields are arbitrary functions, so every
 * property proved here holds for every calendar Foundation might supply.
 */
module DateModel {
  import opened Options

  /** An instant: a whole number of ticks since the reference date. */
  datatype Date = Date(ticks: int)

  /** The `Calendar.Component` values the extensions use. */
  datatype CalendarUnit =
    | Era | Year | Month | Day | Hour | Minute | Second | Nanosecond
    | Weekday | WeekOfYear | WeekOfMonth

  /** `Date.EditableDateComponents`: the components `update(components:)` may overwrite. */
  datatype EditableComponent = Year | Month | Day | Hour | Minute | Second

  /** The components of an instant the model reads (no era or week numbers). */
  datatype Fields = Fields(
    year: int, month: int, day: int, weekday: int,
    hour: int, minute: int, second: int, nanosecond: int)

  /** Foundation's `DateComponents`: each field is present or absent. */
  datatype DateComponents = DateComponents(
    year: Option<int>, month: Option<int>, day: Option<int>, weekday: Option<int>,
    hour: Option<int>, minute: Option<int>, second: Option<int>, nanosecond: Option<int>)

  /** The half-open range `lower..<upper` that `calendar.range(of:in:for:)` returns. */
  datatype NanosecondRange = NanosecondRange(lower: int, upper: int)

  /** The calendar capability the extensions consume. */
  datatype Calendar = Calendar(
    // component(_:from:) for every component
    fields: Date -> Fields,
    // date(from:), which fails on components that form no date
    dateFrom: DateComponents -> Option<Date>,
    // date(byAdding:value:to:)
    adding: (CalendarUnit, int, Date) -> Option<Date>,
    // date(bySetting:value:of:)
    setting: (CalendarUnit, int, Date) -> Option<Date>,
    // dateComponents([unit], from:to:), read back for that unit
    difference: (CalendarUnit, Date, Date) -> Option<int>,
    // range(of: .nanosecond, in: .second, for:)
    nanosecondRange: Date -> NanosecondRange)

  /** `calendar.dateComponents(units, from: d)`: the requested components, the rest absent. */
  function Extract(cal: Calendar, units: set<CalendarUnit>, d: Date): (c: DateComponents)
  {
    var f := cal.fields(d);
    DateComponents(
      if CalendarUnit.Year in units then Some(f.year) else None,
      if CalendarUnit.Month in units then Some(f.month) else None,
      if CalendarUnit.Day in units then Some(f.day) else None,
      if CalendarUnit.Weekday in units then Some(f.weekday) else None,
      if CalendarUnit.Hour in units then Some(f.hour) else None,
      if CalendarUnit.Minute in units then Some(f.minute) else None,
      if CalendarUnit.Second in units then Some(f.second) else None,
      if CalendarUnit.Nanosecond in units then Some(f.nanosecond) else None)
  }

  /** Swift's 64-bit `Int`. */
  const INT_MIN: int := -0x8000_0000_0000_0000
  const INT_MAX: int := 0x7FFF_FFFF_FFFF_FFFF

  predicate IsInt(x: int) {
    INT_MIN <= x <= INT_MAX
  }

  /** Swift's `%` on `Int`: the remainder takes the sign of the dividend. */
  function Rem(a: int, b: int): (r: int)
    requires b > 0
    ensures 0 <= a ==> r == a % b
    ensures -b < r < b
  {
    if a >= 0 then a % b else -((-a) % b)
  }

  /** Swift's `/` on `Int`: the quotient is truncated toward zero. */
  function Quot(a: int, b: int): int
    requires b > 0
  {
    if a >= 0 then a / b else -((-a) / b)
  }

  function Abs(x: int): nat {
    if x < 0 then -x else x
  }

  /** How far apart two integers are. */
  function Distance(a: int, b: int): nat {
    Abs(a - b)
  }
}
