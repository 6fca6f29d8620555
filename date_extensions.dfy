/**
 * The ordering, component-update, same-day, distance and adding members of
 * Date+Extensions.swift. Swift's `mutating` members take the date and return the
 * new one, which the caller assigns back, as Swift does for a value type.
 */
module DateExtensions {
  import opened Options
  import opened DateModel

  // ---------------------------------------------------------------- ordering

  /** Foundation's `compare`, as the raw value of `ComparisonResult`. */
  function Compare(a: Date, b: Date): (r: int)
    ensures r == -1 <==> a.ticks < b.ticks
    ensures r == 0 <==> a.ticks == b.ticks
    ensures r == 1 <==> a.ticks > b.ticks
  {
    if a.ticks < b.ticks then -1 else if a.ticks == b.ticks then 0 else 1
  }

  /** `isGreaterThan`: `compare` is `orderedDescending`. */
  function IsGreaterThan(self: Date, date: Date): (r: bool)
    ensures r <==> self.ticks > date.ticks
  {
    Compare(self, date) == 1
  }

  /** `isLessThan`: `compare` is `orderedAscending`. */
  function IsLessThan(self: Date, date: Date): (r: bool)
    ensures r <==> self.ticks < date.ticks
  {
    Compare(self, date) == -1
  }

  /** The two never hold together, neither holds of equal dates, and each is the other turned round. */
  lemma GreaterAndLessExclude(a: Date, b: Date)
    ensures !(IsGreaterThan(a, b) && IsLessThan(a, b))
    ensures a == b ==> !IsGreaterThan(a, b) && !IsLessThan(a, b)
    ensures IsGreaterThan(a, b) <==> IsLessThan(b, a)
    ensures a != b ==> IsGreaterThan(a, b) || IsLessThan(a, b)
  {
  }

  /**
   * `isBetween`: the sign product of `start.compare(self)` and `self.compare(end)`
   * is positive (or, with the bounds included, not negative). Either bound may be
   * the earlier one. As in Swift, the bounds are excluded unless asked for.
   */
  function IsBetween(self: Date, startDate: Date, endDate: Date, includeBounds: bool := false): (r: bool)
    ensures !includeBounds ==>
              (r <==> (startDate.ticks < self.ticks < endDate.ticks
                       || endDate.ticks < self.ticks < startDate.ticks))
    ensures includeBounds ==>
              (r <==> (startDate.ticks <= self.ticks <= endDate.ticks
                       || endDate.ticks <= self.ticks <= startDate.ticks))
  {
    var product := Compare(startDate, self) * Compare(self, endDate);
    if includeBounds then product >= 0 else product > 0
  }

  /** Swapping the bounds never changes `isBetween`; the bounds themselves are in exactly when included. */
  lemma IsBetweenBounds(self: Date, startDate: Date, endDate: Date, includeBounds: bool)
    ensures IsBetween(self, startDate, endDate, includeBounds) == IsBetween(self, endDate, startDate, includeBounds)
    ensures IsBetween(startDate, startDate, endDate, includeBounds) <==> includeBounds
    ensures IsBetween(endDate, startDate, endDate, includeBounds) <==> includeBounds
  {
  }

  // -------------------------------------------------------- component updates

  /** What `update(components:)` extracts before overwriting. */
  const UPDATE_UNITS: set<CalendarUnit> := {
    CalendarUnit.Year, CalendarUnit.Month, CalendarUnit.Day, CalendarUnit.Weekday,
    CalendarUnit.Hour, CalendarUnit.Minute, CalendarUnit.Second, CalendarUnit.Nanosecond
  }

  /** The field of `c` that an editable component names. */
  function FieldOf(c: DateComponents, f: EditableComponent): Option<int> {
    match f
    case Year => c.year
    case Month => c.month
    case Day => c.day
    case Hour => c.hour
    case Minute => c.minute
    case Second => c.second
  }

  /** One case of the `switch` in `update(components:)`: set the field `f` to `v`. */
  function Overwrite(c: DateComponents, f: EditableComponent, v: int): (r: DateComponents)
    ensures FieldOf(r, f) == Some(v)
    ensures forall g :: g != f ==> FieldOf(r, g) == FieldOf(c, g)
    ensures r.weekday == c.weekday && r.nanosecond == c.nanosecond
  {
    match f
    case Year => c.(year := Some(v))
    case Month => c.(month := Some(v))
    case Day => c.(day := Some(v))
    case Hour => c.(hour := Some(v))
    case Minute => c.(minute := Some(v))
    case Second => c.(second := Some(v))
  }

  /** The components after every entry of `updates` has been written into `base`. */
  function Updated(base: DateComponents, updates: map<EditableComponent, int>): (c: DateComponents)
    ensures forall f :: FieldOf(c, f) == if f in updates then Some(updates[f]) else FieldOf(base, f)
    ensures c.weekday == base.weekday && c.nanosecond == base.nanosecond
  {
    DateComponents(
      if EditableComponent.Year in updates then Some(updates[EditableComponent.Year]) else base.year,
      if EditableComponent.Month in updates then Some(updates[EditableComponent.Month]) else base.month,
      if EditableComponent.Day in updates then Some(updates[EditableComponent.Day]) else base.day,
      base.weekday,
      if EditableComponent.Hour in updates then Some(updates[EditableComponent.Hour]) else base.hour,
      if EditableComponent.Minute in updates then Some(updates[EditableComponent.Minute]) else base.minute,
      if EditableComponent.Second in updates then Some(updates[EditableComponent.Second]) else base.second,
      base.nanosecond)
  }

  /** Two component sets that agree on every editable field, the weekday and the nanosecond are equal. */
  lemma ComponentsEqual(a: DateComponents, b: DateComponents)
    requires forall f :: FieldOf(a, f) == FieldOf(b, f)
    requires a.weekday == b.weekday && a.nanosecond == b.nanosecond
    ensures a == b
  {
    assert FieldOf(a, EditableComponent.Year) == FieldOf(b, EditableComponent.Year);
    assert FieldOf(a, EditableComponent.Month) == FieldOf(b, EditableComponent.Month);
    assert FieldOf(a, EditableComponent.Day) == FieldOf(b, EditableComponent.Day);
    assert FieldOf(a, EditableComponent.Hour) == FieldOf(b, EditableComponent.Hour);
    assert FieldOf(a, EditableComponent.Minute) == FieldOf(b, EditableComponent.Minute);
    assert FieldOf(a, EditableComponent.Second) == FieldOf(b, EditableComponent.Second);
  }

  /** The loop of `update(components:)`: the entries of the dictionary, in any order. */
  method ApplyUpdates(base: DateComponents, updates: map<EditableComponent, int>) returns (c: DateComponents)
    ensures c == Updated(base, updates)
  {
    c := base;
    var pending := updates.Keys;
    while pending != {}
      invariant pending <= updates.Keys
      invariant forall f :: FieldOf(c, f) == if f in updates && f !in pending then Some(updates[f]) else FieldOf(base, f)
      invariant c.weekday == base.weekday && c.nanosecond == base.nanosecond
      decreases pending
    {
      var f :| f in pending;
      c := Overwrite(c, f, updates[f]);
      pending := pending - {f};
    }
    ComponentsEqual(c, Updated(base, updates));
  }

  /**
   * `update(components:)`: the date the calendar builds from the extracted components
   * with the listed ones overwritten, or the date unchanged when it builds none.
   */
  method Update(cal: Calendar, self: Date, updates: map<EditableComponent, int>) returns (r: Date)
    ensures var c := Updated(Extract(cal, UPDATE_UNITS, self), updates);
      && (cal.dateFrom(c).None? ==> r == self)
      && (cal.dateFrom(c).Some? ==> r == cal.dateFrom(c).value)
  {
    var dateComponents := ApplyUpdates(Extract(cal, UPDATE_UNITS, self), updates);
    var date := cal.dateFrom(dateComponents);
    if date.None? {
      return self;
    }
    r := date.value;
  }

  /** A one-entry update overwrites that field of the extracted components and nothing else. */
  lemma UpdatedSingle(base: DateComponents, f: EditableComponent, v: int)
    ensures Updated(base, map[f := v]) == Overwrite(base, f, v)
  {
    ComponentsEqual(Updated(base, map[f := v]), Overwrite(base, f, v));
  }

  /**
   * The `year`, `month`, `day`, `hour`, `minute` and `second` setters: one-entry
   * updates, so only that field of the extracted components changes.
   */
  method SetComponent(cal: Calendar, self: Date, f: EditableComponent, newValue: int) returns (r: Date)
    ensures var c := Overwrite(Extract(cal, UPDATE_UNITS, self), f, newValue);
      && (cal.dateFrom(c).None? ==> r == self)
      && (cal.dateFrom(c).Some? ==> r == cal.dateFrom(c).value)
  {
    UpdatedSingle(Extract(cal, UPDATE_UNITS, self), f, newValue);
    r := Update(cal, self, map[f := newValue]);
  }

  // ------------------------------------------------------------- millisecond

  /** The `millisecond` getter: the nanosecond divided by a million, truncated. */
  function Millisecond(cal: Calendar, self: Date): (ms: int)
    ensures 0 <= cal.fields(self).nanosecond ==>
              0 <= ms * 1_000_000 <= cal.fields(self).nanosecond < ms * 1_000_000 + 1_000_000
  {
    Quot(cal.fields(self).nanosecond, 1_000_000)
  }

  /**
   * The `millisecond` setter: nothing happens when the nanosecond count lies outside
   * the calendar's range; otherwise the calendar sets the nanosecond, and nothing
   * happens if it cannot. The multiplication traps in Swift when it overflows `Int`.
   */
  method SetMillisecond(cal: Calendar, self: Date, newValue: int) returns (r: Date)
    requires IsInt(newValue * 1_000_000)
    ensures var nanoSeconds := newValue * 1_000_000;
      var allowed := cal.nanosecondRange(self);
      !(allowed.lower <= nanoSeconds < allowed.upper) ==> r == self
    ensures var nanoSeconds := newValue * 1_000_000;
      var allowed := cal.nanosecondRange(self);
      var setResult := cal.setting(CalendarUnit.Nanosecond, nanoSeconds, self);
      allowed.lower <= nanoSeconds < allowed.upper ==>
        && (setResult.None? ==> r == self)
        && (setResult.Some? ==> r == setResult.value)
  {
    var nanoSeconds := newValue * 1_000_000;
    var allowedRange := cal.nanosecondRange(self);
    if !(allowedRange.lower <= nanoSeconds < allowedRange.upper) {
      return self;
    }
    r := self;
    var date := cal.setting(CalendarUnit.Nanosecond, nanoSeconds, self);
    if date.Some? {
      r := date.value;
    }
  }

  /**
   * Reading the milliseconds back from a date whose nanosecond the calendar set to
   * `newValue * 1_000_000` gives `newValue`.
   */
  lemma MillisecondRoundTrip(cal: Calendar, self: Date, newValue: int, date: Date)
    requires 0 <= newValue
    requires cal.setting(CalendarUnit.Nanosecond, newValue * 1_000_000, self) == Some(date)
    requires cal.fields(date).nanosecond == newValue * 1_000_000
    ensures Millisecond(cal, date) == newValue
  {
  }

  // ---------------------------------------------------------------- same day

  const DAY_UNITS: set<CalendarUnit> := {CalendarUnit.Year, CalendarUnit.Month, CalendarUnit.Day}

  /** `isSame`: year, month and day of the two dates agree. */
  function IsSame(cal: Calendar, self: Date, anotherDate: Date): (r: bool)
    ensures r <==> && cal.fields(self).year == cal.fields(anotherDate).year
                   && cal.fields(self).month == cal.fields(anotherDate).month
                   && cal.fields(self).day == cal.fields(anotherDate).day
  {
    var componentsSelf := Extract(cal, DAY_UNITS, self);
    var componentsAnotherDate := Extract(cal, DAY_UNITS, anotherDate);
    componentsSelf.year == componentsAnotherDate.year
    && componentsSelf.month == componentsAnotherDate.month
    && componentsSelf.day == componentsAnotherDate.day
  }

  /** `isEqual`, an alias of `isSame`. */
  function IsEqual(cal: Calendar, self: Date, date: Date): (r: bool)
    ensures r <==> && cal.fields(self).year == cal.fields(date).year
                   && cal.fields(self).month == cal.fields(date).month
                   && cal.fields(self).day == cal.fields(date).day
  {
    IsSame(cal, self, date)
  }

  /** Same-day is an equivalence relation, and `isEqual` is the same relation. */
  lemma SameDayIsEquivalence(cal: Calendar, a: Date, b: Date, c: Date)
    ensures IsSame(cal, a, a)
    ensures IsSame(cal, a, b) == IsSame(cal, b, a)
    ensures IsSame(cal, a, b) && IsSame(cal, b, c) ==> IsSame(cal, a, c)
    ensures IsEqual(cal, a, b) == IsSame(cal, a, b)
  {
  }

  // ---------------------------------------------------------------- distances

  /** A calendar whose difference from `b` to `a` is the negated difference from `a` to `b`. */
  ghost predicate AntisymmetricDifference(cal: Calendar) {
    forall u, a, b :: cal.difference(u, a, b) == Negated(cal.difference(u, b, a))
  }

  function Negated(x: Option<int>): Option<int> {
    if x.None? then None else Some(-x.value)
  }

  /**
   * `monthsBetween`: the absolute month difference, 0 when the calendar gives none.
   * Never negative, and 0 exactly when no month difference, or a zero one, is given.
   */
  function MonthsBetween(cal: Calendar, self: Date, toDate: Date): (r: int)
    ensures r >= 0
    ensures r == 0 <==> cal.difference(CalendarUnit.Month, self, toDate) in {None, Some(0)}
    ensures cal.difference(CalendarUnit.Month, self, toDate).Some? ==>
              r == cal.difference(CalendarUnit.Month, self, toDate).value
              || r == -cal.difference(CalendarUnit.Month, self, toDate).value
  {
    var month := cal.difference(CalendarUnit.Month, self, toDate);
    if month.None? then 0 else Abs(month.value)
  }

  /** On an antisymmetric calendar the month count does not depend on the order of the dates. */
  lemma MonthsBetweenSymmetric(cal: Calendar, a: Date, b: Date)
    requires AntisymmetricDifference(cal)
    ensures MonthsBetween(cal, a, b) == MonthsBetween(cal, b, a)
  {
    assert cal.difference(CalendarUnit.Month, a, b) == Negated(cal.difference(CalendarUnit.Month, b, a));
  }

  /**
   * `isWithin`: the difference in `component` is at most `value` either way. Swift's
   * force unwrap of the difference traps when the calendar gives none.
   */
  function IsWithin(cal: Calendar, self: Date, value: nat, component: CalendarUnit, date: Date): (r: bool)
    requires cal.difference(component, self, date).Some?
    ensures r <==> -(value as int) <= cal.difference(component, self, date).value <= value
  {
    var componentValue := cal.difference(component, self, date).value;
    Abs(componentValue) <= value
  }

  /** A wider allowance keeps a date within; on an antisymmetric calendar the relation is symmetric. */
  lemma IsWithinProperties(cal: Calendar, self: Date, value: nat, wider: nat, component: CalendarUnit, date: Date)
    requires cal.difference(component, self, date).Some?
    requires value <= wider
    ensures IsWithin(cal, self, value, component, date) ==> IsWithin(cal, self, wider, component, date)
    ensures AntisymmetricDifference(cal) ==>
              cal.difference(component, date, self).Some? &&
              IsWithin(cal, self, value, component, date) == IsWithin(cal, date, value, component, self)
  {
    if AntisymmetricDifference(cal) {
      assert cal.difference(component, date, self) == Negated(cal.difference(component, self, date));
    }
  }

  // ------------------------------------------------------------------ adding

  /**
   * `adding(_:value:)`: the calendar's sum, passed through unchanged; with the
   * calendar abstract there is nothing more to say about it.
   */
  function Adding(cal: Calendar, self: Date, component: CalendarUnit, value: int): (r: Option<Date>)
    ensures r == cal.adding(component, value, self)
  {
    cal.adding(component, value, self)
  }

  /** `addingDays`: the same as `adding(.day, value: days)`. */
  function AddingDays(cal: Calendar, self: Date, days: int): (r: Option<Date>)
    ensures r == Adding(cal, self, CalendarUnit.Day, days)
  {
    cal.adding(CalendarUnit.Day, days, self)
  }

  /** `addingHour`: the same as `adding(.hour, value: hour)`. */
  function AddingHour(cal: Calendar, self: Date, hour: int): (r: Option<Date>)
    ensures r == Adding(cal, self, CalendarUnit.Hour, hour)
  {
    cal.adding(CalendarUnit.Hour, hour, self)
  }

  /** `add(_:value:)`: the calendar's sum, or the date unchanged when there is none. */
  method Add(cal: Calendar, self: Date, component: CalendarUnit, value: int) returns (r: Date)
    ensures cal.adding(component, value, self).None? ==> r == self
    ensures cal.adding(component, value, self).Some? ==> r == cal.adding(component, value, self).value
  {
    r := self;
    var date := Adding(cal, self, component, value);
    if date.Some? {
      r := date.value;
    }
  }

  /** `addDays`: `days` days later, or the date unchanged when the calendar gives none. */
  method AddDays(cal: Calendar, self: Date, days: int) returns (r: Date)
    ensures cal.adding(CalendarUnit.Day, days, self).None? ==> r == self
    ensures cal.adding(CalendarUnit.Day, days, self).Some? ==> r == cal.adding(CalendarUnit.Day, days, self).value
  {
    var date := AddingDays(cal, self, days);
    if date.None? {
      return self;
    }
    r := date.value;
  }

  /** `addHour`: `hour` hours later, or the date unchanged when the calendar gives none. */
  method AddHour(cal: Calendar, self: Date, hour: int) returns (r: Date)
    ensures cal.adding(CalendarUnit.Hour, hour, self).None? ==> r == self
    ensures cal.adding(CalendarUnit.Hour, hour, self).Some? ==> r == cal.adding(CalendarUnit.Hour, hour, self).value
  {
    var date := AddingHour(cal, self, hour);
    if date.None? {
      return self;
    }
    r := date.value;
  }
}
