# SwifterKit containers and date helpers in Dafny

This project models two parts of the SwifterKit Swift library.

- **`SFDataStructures.swift`**: the generic containers `List`, `Queue` and `Stack`.
  Each is a value type over a private Swift array. Here each is a class whose field
  `items` is that array, and whose mutating methods reassign it
  (module `DataStructures`, file `data_structures.dfy`).
- **`Date+Extensions.swift`**: the small algorithms the extension has of its own.
  - Minute-bucket rounding (module `DateRounding`).
  - Ordering predicates, component updates, the millisecond setter, same-day checks,
    month and component distances, and the in-place adders (module `DateExtensions`).

  The types they work on are in module `DateModel`, and Swift's `Optional` is in module `Options`.

Foundation's `Calendar` is not modelled. It is a value of the datatype `Calendar`,
whose fields are arbitrary functions:

- decomposing an instant into components;
- building an instant from components, which can fail;
- `date(byAdding:)`, `date(bySetting:)`;
- component differences;
- the nanosecond range of a second.

Every member takes the calendar as a parameter, so each property holds for every
calendar. An instant is a whole number of ticks (`Date(ticks)`), and `compare`
gives the raw values of `ComparisonResult`: -1, 0 and 1.

A Swift `mutating func` on `Date` becomes a method that takes the date and returns
the new one. For a value type that is what Swift's assignment back to `self` amounts to.

Where Swift force-unwraps a calendar result, the model does one of two things:

- it returns `None` (the rounding functions), or
- it states the unwrap's condition as a precondition (`isWithin`).

Swift's `Int` is 64 bits. `newValue * 1_000_000` in the millisecond setter traps on
overflow, and the model requires that product to fit.

The rounding's tie policy is not the same for every bucket:

- A ten-minute tie (remainder 5, threshold 6) rounds down.
- A half-hour tie (remainder 15, threshold 15) rounds up.
- The five- and fifteen-minute buckets have no tie.

So the roundings are not uniformly round-half-down. `DocumentedRoundings` records both tie cases.

## Model

| member | source | states |
|---|---|---|
| DataStructures.FirstIndex | SwifterKit/Classes/Sources/Apple/SwifterKit/SFDataStructures.swift:91-97 | the lowest index holding the element; -1 exactly when the element is absent |
| DataStructures.RemoveAt | SwifterKit/Classes/Sources/Apple/SwifterKit/SFDataStructures.swift:53-55 | one position removed: length one less, elements before it in place, later ones shifted down by one, multiset less exactly that element |
| DataStructures.Reversed | SwifterKit/Classes/Sources/Apple/SwifterKit/SFDataStructures.swift:184-192 | the reverse of a sequence, element by element: the order in which `pop` hands elements back |
| DataStructures.List.constructor | SwifterKit/Classes/Sources/Apple/SwifterKit/SFDataStructures.swift:46 | a new list is empty |
| DataStructures.List.Count | SwifterKit/Classes/Sources/Apple/SwifterKit/SFDataStructures.swift:36-38 | the count is zero exactly when the list is empty |
| DataStructures.List.DeleteAt | SwifterKit/Classes/Sources/Apple/SwifterKit/SFDataStructures.swift:53-55 | requires an index in range (Swift traps otherwise); the list loses exactly that position, the rest keeps its order |
| DataStructures.List.Delete | SwifterKit/Classes/Sources/Apple/SwifterKit/SFDataStructures.swift:61-70 | false and no change exactly when the element is absent; otherwise true and only its first occurrence removed |
| DataStructures.List.Insert | SwifterKit/Classes/Sources/Apple/SwifterKit/SFDataStructures.swift:75-77 | the element is appended at the end and the earlier elements are unchanged |
| DataStructures.List.SearchAt | SwifterKit/Classes/Sources/Apple/SwifterKit/SFDataStructures.swift:83-85 | the element at an in-range index; `None` for every index out of range, negative ones included |
| DataStructures.List.Search | SwifterKit/Classes/Sources/Apple/SwifterKit/SFDataStructures.swift:91-97 | the early-exit loop returns the lowest index holding the element, or -1 exactly when it is absent |
| DataStructures.Queue.constructor | SwifterKit/Classes/Sources/Apple/SwifterKit/SFDataStructures.swift:117 | a new queue is empty |
| DataStructures.Queue.Count | SwifterKit/Classes/Sources/Apple/SwifterKit/SFDataStructures.swift:107-109 | the count is zero exactly when the queue is empty |
| DataStructures.Queue.Dequeue | SwifterKit/Classes/Sources/Apple/SwifterKit/SFDataStructures.swift:124-131 | removes the head and returns true, or returns false and changes nothing on an empty queue |
| DataStructures.Queue.Empty | SwifterKit/Classes/Sources/Apple/SwifterKit/SFDataStructures.swift:134-136 | the queue is left with no element |
| DataStructures.Queue.Enqueue | SwifterKit/Classes/Sources/Apple/SwifterKit/SFDataStructures.swift:141-143 | the element is appended at the tail |
| DataStructures.Queue.Top | SwifterKit/Classes/Sources/Apple/SwifterKit/SFDataStructures.swift:148-150 | the head, without removing it, or `None` exactly when the queue is empty |
| DataStructures.Stack.constructor | SwifterKit/Classes/Sources/Apple/SwifterKit/SFDataStructures.swift:170 | a new stack is empty |
| DataStructures.Stack.Count | SwifterKit/Classes/Sources/Apple/SwifterKit/SFDataStructures.swift:160-162 | the count is zero exactly when the stack is empty |
| DataStructures.Stack.Empty | SwifterKit/Classes/Sources/Apple/SwifterKit/SFDataStructures.swift:177-179 | true exactly when the count is zero |
| DataStructures.Stack.Pop | SwifterKit/Classes/Sources/Apple/SwifterKit/SFDataStructures.swift:184-192 | returns the last element pushed and removes it; on an empty stack returns `None` and leaves it empty |
| DataStructures.Stack.Push | SwifterKit/Classes/Sources/Apple/SwifterKit/SFDataStructures.swift:197-199 | the element goes on top, the rest is unchanged |
| DataStructures.DrainQueue | SwifterKit/Classes/Sources/Apple/SwifterKit/SFDataStructures.swift:124-150 | FIFO: emptying a queue with `top` and `dequeue` yields its elements in insertion order |
| DataStructures.DrainStack | SwifterKit/Classes/Sources/Apple/SwifterKit/SFDataStructures.swift:177-199 | LIFO: emptying a stack with `pop` yields its elements in reverse insertion order |
| DataStructures.EmptyThenEnqueue | SwifterKit/Classes/Sources/Apple/SwifterKit/SFDataStructures.swift:134-150 | after `empty()` and `enqueue(x)`, `top()` is `x` and the count is 1 |
| DataStructures.PushThenPop | SwifterKit/Classes/Sources/Apple/SwifterKit/SFDataStructures.swift:184-199 | `push(x)` then `pop()` returns `x` and restores the previous contents |
| DateRounding.RoundMinute | SwifterKit/Classes/Sources/Apple/Foundation/Date+Extensions.swift:379-439 | the new-minute expression of the four roundings: for a minute of the hour it moves down (or stays) exactly when the remainder is below the threshold, is never negative, and moves by less than a bucket |
| DateRounding.RoundMinuteTie | SwifterKit/Classes/Sources/Apple/Foundation/Date+Extensions.swift:379-439 | at a tie (remainder half a bucket) the minute goes down to the bucket start exactly when the remainder is below the threshold, and up to the next start otherwise |
| DateRounding.RoundMinuteBetweenNeighbours | SwifterKit/Classes/Sources/Apple/Foundation/Date+Extensions.swift:379-439 | the rounded minute is the bucket start below the minute or the one above, and no farther from the minute than either |
| DateRounding.RoundMinuteIsClosest | SwifterKit/Classes/Sources/Apple/Foundation/Date+Extensions.swift:379-439 | for a threshold at the bucket's midpoint, no multiple of the bucket is closer to the minute than the rounded one |
| DateRounding.RoundMinuteWithinHour | SwifterKit/Classes/Sources/Apple/Foundation/Date+Extensions.swift:379-439 | for a bucket dividing the hour, a minute 0..59 rounds into 0..60 (60 before the calendar normalises it) |
| DateRounding.RoundMinuteIsNearest | SwifterKit/Classes/Sources/Apple/Foundation/Date+Extensions.swift:374-443 | for a threshold at the midpoint: a multiple of the bucket, at most half a bucket away, a nearest multiple, within 0..60 |
| DateRounding.RoundedComponents | SwifterKit/Classes/Sources/Apple/Foundation/Date+Extensions.swift:375-381 | year, month, day and hour as extracted, no weekday, second and nanosecond zero, minute the nearest bucket boundary; at a tie, the lower boundary exactly when the remainder is below the threshold |
| DateRounding.NearestFiveMinutes | SwifterKit/Classes/Sources/Apple/Foundation/Date+Extensions.swift:374-383 | asks the calendar for the date at a nearest five-minute boundary with zero seconds and nanoseconds |
| DateRounding.NearestTenMinutes | SwifterKit/Classes/Sources/Apple/Foundation/Date+Extensions.swift:394-403 | the same for ten-minute buckets; a tie (remainder 5) goes down to the lower boundary |
| DateRounding.NearestQuarterHour | SwifterKit/Classes/Sources/Apple/Foundation/Date+Extensions.swift:414-423 | the same for fifteen-minute buckets (threshold 8) |
| DateRounding.NearestHalfHour | SwifterKit/Classes/Sources/Apple/Foundation/Date+Extensions.swift:434-443 | the same for thirty-minute buckets; a tie (remainder 15) goes up to the next boundary |
| DateRounding.DocumentedRoundings | SwifterKit/Classes/Sources/Apple/Foundation/Date+Extensions.swift:365-452 | the documented examples (32 to 30 and 44 to 45, and the rest), and the tie policy of the ten- and thirty-minute buckets |
| DateRounding.HourTruncation | SwifterKit/Classes/Sources/Apple/Foundation/Date+Extensions.swift:455-456 | `nearestHour` keeps year, month, day and hour and drops every other component |
| DateRounding.NearestHour | SwifterKit/Classes/Sources/Apple/Foundation/Date+Extensions.swift:453-462 | no date where the truncation builds none (the force unwrap); the truncated date for minutes under 30; that date plus one hour from 30 on |
| DateRounding.NearestHourAddsOneHourIffLate | SwifterKit/Classes/Sources/Apple/Foundation/Date+Extensions.swift:453-462 | on a calendar where adding an hour moves the truncated date, `nearestHour` keeps that date exactly when the minute is under 30 |
| DateExtensions.Compare | SwifterKit/Classes/Sources/Apple/Foundation/Date+Extensions.swift:874-876 | -1, 0 or 1 as the first instant is earlier, equal or later |
| DateExtensions.IsGreaterThan | SwifterKit/Classes/Sources/Apple/Foundation/Date+Extensions.swift:688-695 | true exactly when `compare` is descending, that is, self is later |
| DateExtensions.IsLessThan | SwifterKit/Classes/Sources/Apple/Foundation/Date+Extensions.swift:701-708 | true exactly when `compare` is ascending, that is, self is earlier |
| DateExtensions.GreaterAndLessExclude | SwifterKit/Classes/Sources/Apple/Foundation/Date+Extensions.swift:688-708 | never both true, both false for equal dates, one is the other with arguments swapped, one holds for distinct dates |
| DateExtensions.IsBetween | SwifterKit/Classes/Sources/Apple/Foundation/Date+Extensions.swift:872-877 | without bounds (the default): strictly between the two dates, in either order; with bounds: between them or equal to one |
| DateExtensions.IsBetweenBounds | SwifterKit/Classes/Sources/Apple/Foundation/Date+Extensions.swift:872-877 | swapping start and end changes nothing; a bound itself is between exactly when bounds are included |
| DateExtensions.Overwrite | SwifterKit/Classes/Sources/Apple/Foundation/Date+Extensions.swift:502-520 | one `switch` case: only the named field changes, to the given value |
| DateExtensions.Updated | SwifterKit/Classes/Sources/Apple/Foundation/Date+Extensions.swift:499-521 | every listed field takes its new value; every other field, weekday and nanosecond included, keeps the extracted one |
| DateExtensions.ApplyUpdates | SwifterKit/Classes/Sources/Apple/Foundation/Date+Extensions.swift:501-521 | the dictionary loop, in any iteration order, produces exactly the updated components |
| DateExtensions.Update | SwifterKit/Classes/Sources/Apple/Foundation/Date+Extensions.swift:492-528 | the date the calendar builds from the updated components, and self unchanged when it builds none |
| DateExtensions.UpdatedSingle | SwifterKit/Classes/Sources/Apple/Foundation/Date+Extensions.swift:145-146 | a one-entry update is the overwrite of that one field |
| DateExtensions.SetComponent | SwifterKit/Classes/Sources/Apple/Foundation/Date+Extensions.swift:134-228 | the year, month, day, hour, minute and second setters: one field overwritten, self unchanged when the calendar fails |
| DateExtensions.Millisecond | SwifterKit/Classes/Sources/Apple/Foundation/Date+Extensions.swift:267-269 | for a non-negative nanosecond, the whole number of milliseconds in it (truncating division) |
| DateExtensions.SetMillisecond | SwifterKit/Classes/Sources/Apple/Foundation/Date+Extensions.swift:270-283 | a no-op when `newValue * 1_000_000` lies outside the allowed nanosecond range; otherwise the calendar's result, or no change when the calendar gives none |
| DateExtensions.MillisecondRoundTrip | SwifterKit/Classes/Sources/Apple/Foundation/Date+Extensions.swift:266-283 | reading back the milliseconds of a date whose nanosecond was set to `v * 1_000_000` gives `v` |
| DateExtensions.IsSame | SwifterKit/Classes/Sources/Apple/Foundation/Date+Extensions.swift:581-592 | true exactly when year, month and day agree |
| DateExtensions.IsEqual | SwifterKit/Classes/Sources/Apple/Foundation/Date+Extensions.swift:714-716 | true exactly when year, month and day agree, the same relation as `isSame` |
| DateExtensions.SameDayIsEquivalence | SwifterKit/Classes/Sources/Apple/Foundation/Date+Extensions.swift:710-716 | same-day is reflexive, symmetric and transitive, and `isEqual` is the same relation |
| DateExtensions.MonthsBetween | SwifterKit/Classes/Sources/Apple/Foundation/Date+Extensions.swift:545-559 | never negative; 0 when the calendar gives no month difference; otherwise the absolute difference |
| DateExtensions.MonthsBetweenSymmetric | SwifterKit/Classes/Sources/Apple/Foundation/Date+Extensions.swift:545-559 | on a calendar whose differences are antisymmetric, the same in both directions |
| DateExtensions.IsWithin | SwifterKit/Classes/Sources/Apple/Foundation/Date+Extensions.swift:886-890 | requires the calendar to give the difference (Swift force-unwraps it); true exactly when it lies within plus or minus the value |
| DateExtensions.IsWithinProperties | SwifterKit/Classes/Sources/Apple/Foundation/Date+Extensions.swift:886-890 | a wider allowance keeps a date within; symmetric on an antisymmetric calendar |
| DateExtensions.Adding | SwifterKit/Classes/Sources/Apple/Foundation/Date+Extensions.swift:799-801 | the calendar's `date(byAdding:value:to:)` for the component, `None` where the calendar gives none |
| DateExtensions.AddingDays | SwifterKit/Classes/Sources/Apple/Foundation/Date+Extensions.swift:598-606 | `adding(.day, value: days)` |
| DateExtensions.AddingHour | SwifterKit/Classes/Sources/Apple/Foundation/Date+Extensions.swift:611-619 | `adding(.hour, value: hour)` |
| DateExtensions.Add | SwifterKit/Classes/Sources/Apple/Foundation/Date+Extensions.swift:814-818 | the calendar's sum, or self unchanged when the calendar gives none |
| DateExtensions.AddDays | SwifterKit/Classes/Sources/Apple/Foundation/Date+Extensions.swift:598-630 | `days` days added through `addingDays`, or self unchanged when the calendar gives none |
| DateExtensions.AddHour | SwifterKit/Classes/Sources/Apple/Foundation/Date+Extensions.swift:611-639 | `hour` hours added through `addingHour`, or self unchanged when the calendar gives none |

## Left out

- `description` of the three containers: the rendering of a Swift array is not modelled.
- Queue.Empty: `removeAll(keepingCapacity: false)` also releases the array's storage; the model has no capacity.
- Value semantics: the Swift containers are structs, copied on assignment. The Dafny classes are references, so `var b := a` shares one object; the model does not capture copy-on-assignment, and states each operation on one container at a time.
- Concurrency: the containers are not synchronised, and the model is single-threaded.
- Calendar internals are parameters: component extraction, `date(from:)`, `date(byAdding:)`, `date(bySetting:)`, component differences and the nanosecond range.
- The model passes one calendar everywhere. The source uses `Calendar(identifier: Calendar.current.identifier)` in some members and `Calendar.autoupdatingCurrent` (Gregorian on Linux) in others.
- SetMillisecond: the macCatalyst branch (a fixed range `0..<1_000_000_000`) is not modelled, and the range lookup's force unwrap is taken to succeed.
- MonthsBetween: `abs` traps in Swift on `Int.min`; a month difference that large is not modelled.
- IsWithin: `abs` traps on `Int.min`; not modelled, for the same reason.
- Instants are whole ticks, not `Double` seconds, so floating-point rounding of `TimeInterval` is not modelled.
- The component getters `year`, `month`, `day`, `weekday`, `hour`, `minute`, `second` and `nanosecond` are plain calendar lookups: they are the calendar's `fields`.
- The getters `era`, `weekOfYear` and `weekOfMonth` are not modelled: `Fields` has no such components.
- Adding: with the calendar abstract, its contract can only name the calendar's `adding`; `AddingDays` and `AddingHour` are stated in terms of it.
- Parsing and formatting are Foundation's `DateFormatter`: `init?(parse:)`, `init?(iso8601:)`, `init?(date:time:)`, `iso8601()`, `iso8601String`, `dateString`, `yearString`, `description`, `localizedWeekday` and `localizedMonth`.
- `init?(year:month:day:…)` and `shortDate` only hand components to the calendar. They are not part of this model.
- `yesterday` and `tomorrow` are not part of this model.
- Members that read the current time, time zone or locale: `isInFuture`, `isInPast`, `isInToday`, `isInYesterday`, `isInTomorrow`, `isInWeekend`, `isWorkday`, `isInCurrentWeek`/`Month`/`Year`, `isInCurrent`, `isToday` and `getCurrentDate`.
- `TimeInterval` arithmetic is floating point: `secondsSince`, `minutesSince`, `hoursSince`, `daysSince`, `daysBetween`, `unixTimestamp`, and `quarter` with `ceil`.
- The `random(in:)` variants depend on floating point and a random number generator.
