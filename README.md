# Room reservation core, in Dafny

This project models the booking core of a Laravel room-reservation application. Employees book
rooms by date and time slot. The model covers:

- how `ReservationController` normalises, validates, parses and corrects the two time fields of a
  booking request;
- when `store` and `update` accept or refuse a request, and the row each one writes;
- the room and employee availability queries (`Room::isAvailable`, `User::canReserve`) and
  `Reservation::hasConflict` built on them;
- the lifecycle guards `canBeModified` / `canBeCancelled`, and the `cancel` and `destroy` actions;
- the display accessors: room type and status labels, full name, formatted times and duration.

The `reservations` table is a class, `ReservationStore.ReservationTable`, whose `rows` field is a
sequence of records. Its methods `Store`, `Update`, `Cancel`, `Destroy` and `SetDurationMinutes`
each state exactly which row changes, and how. They all keep one invariant: no two rows of the
same room or the same employee share a minute on the same day. This is the guarantee the
controller's two availability checks exist to give.

Representation:

- a stored time is a number of minutes after midnight;
- a date is a day number;
- "today" is a parameter instead of a clock read;
- a request's times are strings, as the form sends them.

Modules:

- `PhpString`: the PHP string operations the code relies on: `trim`, the byte-wise order of
  non-numeric strings, decimal printing.
- `ClockTime`: `HH:MM` strings and their minute values.
- `Schedule`: the record and the three-case overlap test the two availability queries share.
- `Rooms`, `Users`, `Reservations`: one module per model class.
- `ReservationController`: the decisions of the controller actions.
- `ReservationStore`: the table.

Where the code departs from the documented intent, the model follows the code:

- The framework rule `date_format:H:i` runs on the raw request fields, not on the normalised
  ones (`app/Http/Controllers/ReservationController.php:284-292`). So a time sent as `HH:MM:SS`
  is always refused by `store` and `update`, although `normalizeTimeFormat` is there to accept
  it (`SecondsAreRefusedByStore`, `SecondsAreRefusedByUpdate`).
- The availability queries do not filter on status. A cancelled reservation keeps its slot taken
  (`Rooms.CancelledStillBlocks`, `Users.CancelledStillBlocksEmployee`).
- `DateTime::createFromFormat('H:i', ...)` accepts any two digits, colon, two digits, overflowing
  past midnight rather than failing. Once `validateTimeFormat` has passed, the "cannot parse"
  branch of `store` and `update` is therefore unreachable (`ParseNeverFails`).

## Model

| member | source | states |
|---|---|---|
| PhpString.Trim | app/Models/User.php:96 | PHP `trim`: the result has no whitespace (space, tab, newline, return, NUL, vertical tab) at either end, is the input when there is none to strip, and is empty for an all-whitespace input |
| PhpString.TrimStripsOnlyTheEnds | app/Models/User.php:96 | `trim` returns a contiguous piece of the input, and everything it drops before and after that piece is whitespace |
| ClockTime.ClockMinutes | app/Http/Controllers/ReservationController.php:214-215 | the minute value `createFromFormat('H:i')` gives a `dd:dd` string, at most 99*60+99, and below 1440 for a real time of day |
| ClockTime.FormatClock | app/Models/Reservation.php:57-66 | every minute of the day prints as a valid `HH:MM` string whose minute value is that minute |
| ClockTime.ClockRoundTrip | app/Models/Reservation.php:57-66 | printing the minute value of a valid `HH:MM` string gives the string back |
| ClockTime.StringOrderIsClockOrder | app/Http/Controllers/ReservationController.php:304 | on valid `HH:MM` strings, PHP's string comparison `$startTime >= $endTime` agrees with the order of the times, in both directions |
| ClockTime.ShapeOrderCanDisagree | app/Http/Controllers/ReservationController.php:304 | on shape-valid strings with minutes over 59 the string order and the time order can disagree, e.g. `00:99` against `01:00` |
| Schedule.ThreeCaseConflict | app/Models/Room.php:53-66 | the three `orWhere` cases: the candidate starts inside a stored slot, ends inside it, or encloses it |
| Schedule.ThreeCaseIsHalfOpen | app/Models/Room.php:53-66 | for non-empty intervals, the three `orWhere` clash cases hold exactly when the half-open intervals share a minute |
| Schedule.ThreeCaseNeedsNonEmptyRows | app/Models/Room.php:53-66 | an empty stored slot placed on the candidate's start clashes under the three cases without overlapping it |
| Schedule.ThreeCaseSymmetric | app/Models/Room.php:53-66 | on non-empty intervals the clash test does not depend on which interval is the stored one |
| Schedule.CountClashes | app/Models/Room.php:49-73 | the `count()` of the query is bounded by the rows and is zero iff no row clashes |
| Rooms.TypeName | app/Models/Room.php:79-82 | a known type gets its label from `TYPES` (never the raw type); an unknown type is shown as is |
| Rooms.TypeNamesDistinct | app/Models/Room.php:32-36 | distinct known types have distinct labels |
| Rooms.OfRoom | app/Models/Room.php:41-44 | the room's rows are exactly the rows with its `room_id` |
| Rooms.IsAvailable | app/Models/Room.php:49-74 | `isAvailable`: the count of the room's rows on that date, other than the excluded id, that fall under the three cases is zero; `IsAvailableIff` states it row by row |
| Rooms.IsAvailableIff | app/Models/Room.php:49-74 | the room is free iff no row of that room clashes on that date, ignoring the excluded id |
| Rooms.AvailableIffNoOverlap | app/Models/Room.php:49-74 | with non-empty slots, free iff no non-excluded slot of the room on that date overlaps `[start, end)` |
| Rooms.AddingNonClashingRow | app/Models/Room.php:49-74 | adding a row that does not clash with the asked slot leaves the room's availability unchanged |
| Rooms.BackToBackIsFree | app/Models/Room.php:53-66 | in any table, a booking never blocks the slot that starts when it ends |
| Rooms.SlotEndingAtStartIsFree | app/Models/Room.php:53-66 | in any table, a booking never blocks the slot that ends when it starts |
| Rooms.IdenticalSlotConflicts | app/Models/Room.php:49-74 | asking for exactly a booked slot finds the room taken unless that row is excluded |
| Rooms.OnlySlotsMatter | app/Models/Room.php:49-74 | the answer depends only on id, room, employee, date and times of the rows |
| Rooms.CancelledStillBlocks | app/Models/Room.php:49-74 | cancelling a row does not change availability: status is not filtered |
| Rooms.OtherRoomOrDateIgnored | app/Models/Room.php:51-52 | a row of another room or another date never changes the answer |
| Rooms.AddingOnlyTakesAway | app/Models/Room.php:49-74 | adding a row can only make the room less available |
| Rooms.ExcludingOnlyFrees | app/Models/Room.php:70-72 | excluding an id can only make the room more available |
| Users.IsAdmin | app/Models/User.php:67-70 | `isAdmin`: the role is strictly equal to `admin`; `OnlyExactAdminRole` states the consequences |
| Users.OnlyExactAdminRole | app/Models/User.php:67-70 | `isAdmin` holds exactly for the role `admin`; a null role, `Admin` or `admin ` are not admins |
| Users.FullName | app/Models/User.php:94-97 | the full name has no surrounding whitespace and is no longer than both names joined by a space |
| Users.FullNameWithoutFirstName | app/Models/User.php:94-97 | with no first name, the full name is the trimmed name |
| Users.FullNameJoins | app/Models/User.php:94-97 | names with no surrounding whitespace are joined by exactly one space |
| Users.OfEmployee | app/Models/User.php:86-89 | the employee's rows are exactly the rows with their `employee_id`, in any room |
| Users.CanReserve | app/Models/User.php:103-128 | `canReserve`: the count of the employee's rows on that date, in any room and of any status, other than the excluded id, that fall under the three cases is zero; `CanReserveIff` states it row by row |
| Users.CanReserveIff | app/Models/User.php:103-128 | the employee is free iff no row of theirs clashes on that date, ignoring the excluded id |
| Users.CanReserveIffNoOverlap | app/Models/User.php:103-128 | with non-empty slots, free iff no non-excluded slot of theirs on that date overlaps `[start, end)` |
| Users.WithoutId | app/Models/User.php:123-125 | the rows left are exactly those whose id differs from the given one |
| Users.CanReserveIffMembers | app/Models/User.php:103-128 | the employee is free iff no stored row of theirs clashes, stated over the rows as a collection |
| Users.ExcludeRemovesExactlyThatRow | app/Models/User.php:123-125 | a non-zero exclude id answers as if the rows of that id were absent |
| Users.CancelledStillBlocksEmployee | app/Models/User.php:103-128 | cancelling a row does not change the employee's availability |
| Reservations.StatusName | app/Models/Reservation.php:200-203 | a known status gets its label from `STATUSES` (never the raw status); an unknown status is shown as is |
| Reservations.CanBeModified | app/Models/Reservation.php:208-213 | `canBeModified`: the status is neither `cancelled` nor `completed` and the date is not before today |
| Reservations.CanBeCancelled | app/Models/Reservation.php:218-223 | `canBeCancelled`: the same condition, written out separately |
| Reservations.GuardsAgree | app/Models/Reservation.php:208-223 | `canBeModified` and `canBeCancelled` always agree, and either needs an open status and a date not yet past |
| Reservations.ClosedStaysClosed | app/Models/Reservation.php:208-223 | a cancelled or completed reservation can be neither modified nor cancelled, whatever the day |
| Reservations.GuardsOnlyExpire | app/Models/Reservation.php:208-213 | a reservation modifiable on a day was modifiable on every earlier day |
| Reservations.HasConflict | app/Models/Reservation.php:140-159 | `hasConflict`: the room check or the employee check fails; `HasConflictIff` states it row by row |
| Reservations.HasConflictIff | app/Models/Reservation.php:140-159 | a conflict exists iff some non-excluded row of the same room or the same employee clashes |
| Reservations.StoredRowConflictsWithItself | app/Models/Reservation.php:140-159 | called on a stored row without excluding its own id, `hasConflict` reports the row itself |
| Reservations.PhpMod | app/Models/Reservation.php:235 | PHP's `%`: the remainder differs from the dividend by a multiple of the divisor, lies strictly between minus and plus the divisor, and is never positive for a negative dividend nor negative for a non-negative one, which fixes it |
| Reservations.FormattedDuration | app/Models/Reservation.php:228-244 | the formatted duration is empty iff the duration is zero |
| Reservations.DurationSplit | app/Models/Reservation.php:234-235 | `floor(d / 60)` and `d % 60` are the only hours and minutes with `h * 60 + m == d` and `m < 60` |
| Reservations.FormattedDurationCases | app/Models/Reservation.php:237-243 | the `{h}h {m}min`, `{h}h` and `{m}min` shapes, each for exactly its hours/minutes case |
| Reservations.NegativeDurationPrintsMinutes | app/Models/Reservation.php:234-243 | every negative duration falls to the minutes branch and prints PHP's signed remainder, between -59 and 0, followed by `min` |
| Reservations.NegativeDurationExamples | app/Models/Reservation.php:234-243 | `-90` prints `-30min` and `-60` prints `0min` |
| Reservations.FormattedDurationRoundTrip | app/Models/Reservation.php:228-244 | every positive duration is read back exactly from its formatted text |
| Reservations.FormattedDurationInjective | app/Models/Reservation.php:228-244 | two different positive durations never print alike |
| Reservations.FormattedTime | app/Models/Reservation.php:57-84 | null iff the time is null or PHP-falsy; its first five characters for a string of at most eight; otherwise Carbon's `H:i` rendering |
| Reservations.StoredTimeReadsBack | app/Models/Reservation.php:57-66 | a stored time reads back as its `HH:MM`, whether the column returns `HH:MM:SS` or `HH:MM` |
| ReservationController.NormalizeTimeFormat | app/Http/Controllers/ReservationController.php:170-173 | the result is a prefix of the input of at most five characters, and the input itself when shorter than five |
| ReservationController.NormalizeIdempotent | app/Http/Controllers/ReservationController.php:170-173 | normalising twice is normalising once |
| ReservationController.NormalizeDropsSeconds | app/Http/Controllers/ReservationController.php:170-173 | an `HH:MM:SS` string loses exactly its `:SS` |
| ReservationController.ValidateTimeFormat | app/Http/Controllers/ReservationController.php:178-185 | no error iff the string matches `^\d{2}:\d{2}$` (PCRE `$` allowing one final newline); the error names the field |
| ReservationController.MatchesTimePattern | app/Http/Controllers/ReservationController.php:19 | `^\d{2}:\d{2}$` as PCRE reads it: the `dd:dd` shape, optionally followed by one final newline |
| ReservationController.NormalizedValidationIsShape | app/Http/Controllers/ReservationController.php:178-185 | after normalisation, validation passes iff the string is two digits, a colon and two digits |
| ReservationController.ValidationIsShapeOnly | app/Http/Controllers/ReservationController.php:19 | the pattern checks shape only: `99:99` passes, `9:30` fails, `09:30` plus a newline passes |
| ReservationController.ComparisonResult | app/Http/Controllers/ReservationController.php:190-199 | each of the three labels is returned exactly when its order holds |
| ReservationController.ParseTime | app/Http/Controllers/ReservationController.php:214-215 | on a `dd:dd` string, the minute value `createFromFormat('H:i')` gives; other strings are modelled as failing, a case `validateTimeFormat` makes unreachable |
| ReservationController.ParseAndCorrectTimes | app/Http/Controllers/ReservationController.php:204-246 | null iff a trimmed time cannot be parsed; otherwise the two trimmed times, in ascending order, and unchanged when not inverted |
| ReservationController.TrimKeepsShape | app/Http/Controllers/ReservationController.php:206-207 | trimming a `dd:dd` string changes nothing |
| ReservationController.CorrectTimes | app/Http/Controllers/ReservationController.php:260-310 | an accepted pair is two `dd:dd` strings with the start strictly before the end in string order |
| ReservationController.ParseNeverFails | app/Http/Controllers/ReservationController.php:297-300 | once the shapes are validated the "cannot parse" refusal never happens |
| ReservationController.AcceptedTimesAreOrdered | app/Http/Controllers/ReservationController.php:260-310 | with the framework rules holding, an accepted pair is the request's two times, valid, in strictly ascending order |
| ReservationController.EqualTimesRefused | app/Http/Controllers/ReservationController.php:304-310 | equal times are always refused, as a duration error once the earlier checks pass |
| ReservationController.CorrectTimesIdempotent | app/Http/Controllers/ReservationController.php:204-246 | submitting an accepted pair again gives the same pair |
| ReservationController.DistinctTimesAccepted | app/Http/Controllers/ReservationController.php:204-310 | once the rules pass, any two valid times that differ are accepted: as given when the start comes first, swapped otherwise |
| ReservationController.InvertedPairIsSwapped | app/Http/Controllers/ReservationController.php:233-237 | `10:00`–`09:00` is swapped to `09:00`–`10:00`, not refused, and on a free table books the slot 540–600 with a duration of 60 minutes |
| ReservationController.NormalizerCutsSeconds | app/Http/Controllers/ReservationController.php:170-173 | `09:00:00`–`10:30:00` normalised and corrected give `09:00`–`10:30` |
| ReservationController.DurationMinutes | app/Http/Controllers/ReservationController.php:339-342 | the timestamp difference over 60 is the end minute minus the start minute |
| ReservationController.BookingDecision | app/Http/Controllers/ReservationController.php:260-342 | an accepted slot has valid times in ascending order, a positive duration below a day equal to their difference, and passed both the room and the employee checks |
| ReservationController.BothChecksRequired | app/Http/Controllers/ReservationController.php:317-335 | once the times are accepted, booking succeeds iff both checks pass, and a refusal reports which checks failed |
| ReservationController.NewReservation | app/Http/Controllers/ReservationController.php:356-366 | the row `store` creates carries the given id and status `confirmed` |
| ReservationController.StoreRulesPass | app/Http/Controllers/ReservationController.php:284-292 | the `store` rules on the raw fields: known employee and room, a date from today on, two valid `H:i` times, and the length limits on purpose and notes |
| ReservationController.UpdateRulesPass | app/Http/Controllers/ReservationController.php:448-457 | the same rules for `update`, plus a status among the known ones |
| ReservationController.StoreDecision | app/Http/Controllers/ReservationController.php:251-342 | an accepted request passed the framework rules and both checks with nothing excluded |
| ReservationController.StoredRowIsSound | app/Http/Controllers/ReservationController.php:251-366 | the stored row is well formed, on the requested date, room and employee, with the request's times in order, their difference as duration, status `confirmed`, the request's purpose and notes, and no conflict with any existing row |
| ReservationController.SecondsAreRefusedByStore | app/Http/Controllers/ReservationController.php:284-292 | a time longer than five characters never gets through `store` |
| ReservationController.SecondsAreRefusedByUpdate | app/Http/Controllers/ReservationController.php:448-457 | a time longer than five characters never gets through `update` either |
| ReservationController.UpdateDecision | app/Http/Controllers/ReservationController.php:421-507 | refused with "cannot be modified" when the guard fails; an accepted update passed the rules, including a known status, and both checks with its own id excluded |
| ReservationController.UpdatedReservation | app/Http/Controllers/ReservationController.php:517-527 | the rewritten row keeps its id and takes the requested status; `UpdatedRowIsSound` states the rest of the row |
| ReservationController.UpdatedRowIsSound | app/Http/Controllers/ReservationController.php:481-527 | the row an accepted update writes is well formed and keeps its id; it takes the requested room, employee, date, status, purpose and notes, the request's times in order with their difference as duration, and clashes with no row other than itself |
| ReservationController.CancelGuard | app/Http/Controllers/ReservationController.php:543-567 | `cancel` and `destroy` proceed iff `canBeCancelled` holds, and refuse with "cannot be cancelled" otherwise |
| ReservationStore.IndexOfId | app/Http/Controllers/ReservationController.php:421 | the first row with the id, or none iff no row has it |
| ReservationStore.CheckedRowCollidesWithNothing | app/Models/Reservation.php:140-159 | a row without conflict overlaps no non-excluded row of its room or employee on its date |
| ReservationStore.AppendKeepsNoDoubleBooking | app/Http/Controllers/ReservationController.php:317-366 | appending a row that passed both checks keeps the table free of double bookings |
| ReservationStore.StoreKeepsInvariant | app/Http/Controllers/ReservationController.php:251-366 | the row `store` appends keeps ids distinct and positive, slots well formed and the table free of double bookings |
| ReservationStore.AppendFreshIdKeepsIds | app/Http/Controllers/ReservationController.php:356-366 | a new row with an id above every stored id keeps ids distinct |
| ReservationStore.SelfExclusionFrees | app/Models/Room.php:70-72 | in a table without double bookings, a stored reservation excluding its own id finds its room and its employee free for its own slot |
| ReservationStore.EditInPlaceIsNotSelfConflict | app/Http/Controllers/ReservationController.php:481-500 | in a table without double bookings, re-submitting a stored reservation's own slot through `update` is accepted, never refused as a conflict with itself |
| ReservationStore.ReplaceKeepsNoDoubleBooking | app/Http/Controllers/ReservationController.php:481-527 | rewriting a row after both checks with its own id excluded keeps the table free of double bookings |
| ReservationStore.ReplaceKeepsInvariant | app/Http/Controllers/ReservationController.php:481-527 | replacing a row by a well-formed, conflict-free row with the same id keeps ids distinct and below the next id, slots well formed and the table free of double bookings |
| ReservationStore.UpdateKeepsInvariant | app/Http/Controllers/ReservationController.php:421-538 | the row `update` writes keeps every part of the table invariant |
| ReservationStore.SlotPreservingUpdateKeepsInvariant | app/Http/Controllers/ReservationController.php:564 | a change the availability queries cannot see, such as a status change, keeps the invariant |
| ReservationStore.RemoveKeepsInvariant | app/Http/Controllers/ReservationController.php:549 | deleting a row keeps the invariant and adds no row |
| ReservationStore.ReservationTable.Store | app/Http/Controllers/ReservationController.php:251-392 | on acceptance exactly one `confirmed` row with the next id is appended and that id returned; on refusal the table is unchanged; the invariant is kept |
| ReservationStore.ReservationTable.Update | app/Http/Controllers/ReservationController.php:421-538 | an unknown id is not found; a refusal changes nothing; an acceptance rewrites that row alone; the invariant is kept |
| ReservationStore.ReservationTable.Cancel | app/Http/Controllers/ReservationController.php:558-567 | when the guard allows it only that row's status becomes `cancelled`; otherwise nothing changes |
| ReservationStore.ReservationTable.Destroy | app/Http/Controllers/ReservationController.php:543-553 | when the guard allows it that row is deleted and the others keep their order; otherwise nothing changes |
| ReservationStore.ReservationTable.SetDurationMinutes | app/Models/Reservation.php:128-135 | the value is stored as given, start and end are not recomputed, nothing else changes |

## Left out

- Logging, redirects, flash messages and the Inertia pages: each refusal is a `BookingError` value instead.
- The framework's validation error bag: `RulesFailed` stands for every failure of the `$request->validate` rules, and the two availability rules report one `Unavailable` value with a flag per failed check.
- `RoomAvailable` and `EmployeeAvailable` first look the room or the employee up. The `exists` rule has already checked both ids, so the model goes straight to `isAvailable` / `canReserve`.
- The database: the table is a sequence in memory. Concurrent requests, transactions and the `unique_room_datetime_active` index are not modelled.
- SQL comparison of the `TIME` columns is taken to be comparison of times. Storage engines that compare the text instead are not modelled.
- Dates: a date is a day number. The timestamps of one day differ by exactly 60 seconds a minute, so daylight-saving changes are not modelled.
- `ClockTime.ClockMinutes` / `ReservationController.ParseTime`: `createFromFormat('H:i')` is modelled faithfully only on strings of the `dd:dd` shape. Those are the only strings the controller passes it, after `validateTimeFormat`. On other strings the model says parsing fails, whereas PHP accepts some of them (`9:30`, with a one-digit hour); the same holds for the `None` case of `ParseAndCorrectTimes`.
- `ReservationController.BookingRequest`: the two time fields are always strings. A request without `start_time` or `end_time` makes `normalizeTimeFormat` receive null before any rule runs (`app/Http/Controllers/ReservationController.php:261-262` and `435-436`); PHP then throws a type error, an HTTP 500, rather than a validation refusal. That outcome is not modelled.
- `Reservations.FormattedTime`: for strings longer than eight characters, Carbon's parsing is a parameter (`carbonFormatted`), not modelled.
- `Reservations.FormattedDuration`: the duration is an integer. A PHP float duration and the float printing of `floor` are not modelled.
- `calculateDuration` (`app/Models/Reservation.php:113-121`): nothing in the controller calls it.
- The `show`, `edit`, `index`, `calendar`, `home` and `dashboard` actions, and the query scopes: they only read data for display.
- Route-model binding of a missing id is modelled as `NotFound`, standing for the HTTP 404 response.
