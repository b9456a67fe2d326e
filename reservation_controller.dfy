/**
 * The decision part of `ReservationController`: how the raw start and end times of a booking
 * request are normalised, checked, corrected and turned into a slot, and when a request to
 * create, change or cancel a reservation is refused. Logging, redirects and flash messages are
 * not modelled; each refusal is a `BookingError`.
 */
module ReservationController {
  import opened Base
  import opened PhpString
  import opened ClockTime
  import opened Schedule
  import Rooms
  import Users
  import Reservations

  datatype Field = StartField | EndField

  datatype BookingError =
    | BadFormat(field: Field)                              // validateTimeFormat refused the field
    | RulesFailed                                           // the framework rules on the request fields
    | Unparseable                                           // parseAndCorrectTimes returned null
    | ZeroOrNegativeDuration                                // start >= end after the correction
    | Unavailable(roomTaken: bool, employeeTaken: bool)     // RoomAvailable / EmployeeAvailable failed
    | NotModifiable                                         // update of a closed or past reservation
    | NotCancellable                                        // cancel or destroy of a closed or past one
    | NotFound                                              // no reservation with that id

  /** The fields of a create or edit form. `status` is only read by `update`. */
  datatype BookingRequest = BookingRequest(
    employeeId: int,
    roomId: int,
    date: int,
    startTime: string,
    endTime: string,
    purpose: Option<string>,
    notes: Option<string>,
    status: string)

  /** `normalizeTimeFormat`: keep the first five characters, dropping a `:SS` suffix. */
  function NormalizeTimeFormat(time: string): (r: string)
    ensures |r| <= 5 && r <= time
    ensures |r| < 5 ==> r == time
  {
    if |time| > 5 then time[..5] else time
  }

  lemma NormalizeIdempotent(time: string)
    ensures NormalizeTimeFormat(NormalizeTimeFormat(time)) == NormalizeTimeFormat(time)
  {
  }

  /** `HH:MM:SS` loses its seconds. */
  lemma NormalizeDropsSeconds(time: string)
    requires |time| == 8 && HasTimeShape(time[..5])
    ensures NormalizeTimeFormat(time) == time[..5] && HasTimeShape(NormalizeTimeFormat(time))
  {
  }

  /**
   * `preg_match('/^\d{2}:\d{2}$/', $time)`: two ASCII digits, a colon, two digits; PCRE's `$`
   * also matches just before a final newline.
   */
  predicate MatchesTimePattern(time: string)
  {
    HasTimeShape(time) || (|time| == 6 && HasTimeShape(time[..5]) && time[5] == '\n')
  }

  /** `validateTimeFormat($time, $label)`: no error iff the pattern matches. */
  function ValidateTimeFormat(time: string, field: Field): (r: Option<BookingError>)
    ensures r.None? <==> MatchesTimePattern(time)
    ensures r.Some? ==> r.value == BadFormat(field)
  {
    if MatchesTimePattern(time) then None else Some(BadFormat(field))
  }

  /** After normalisation the newline allowance never applies: validation is exactly the shape. */
  lemma NormalizedValidationIsShape(time: string, field: Field)
    ensures ValidateTimeFormat(NormalizeTimeFormat(time), field).None? <==> HasTimeShape(NormalizeTimeFormat(time))
  {
  }

  /** The check is on shape only: `99:99` passes, `9:30` does not. */
  lemma ValidationIsShapeOnly()
    ensures ValidateTimeFormat("99:99", StartField).None?
    ensures ValidateTimeFormat("9:30", StartField) == Some(BadFormat(StartField))
    ensures ValidateTimeFormat("09:30\n", EndField).None?
  {
    assert "09:30\n"[..5] == "09:30";
  }

  /** `getComparisonResult`: the log label of the order of two parsed times. */
  function ComparisonResult(start: int, end: int): (r: string)
    ensures r == "start < end (OK)" <==> start < end
    ensures r == "start > end (INVERSÉ)" <==> start > end
    ensures r == "start == end (ÉGAL)" <==> start == end
  {
    if start < end then "start < end (OK)"
    else if start > end then "start > end (INVERSÉ)"
    else "start == end (ÉGAL)"
  }

  /**
   * `DateTime::createFromFormat('H:i', $s)`, on the strings it is given here: a two-digit
   * hour, a colon and two-digit minutes parse, overflowing past midnight if need be. Other
   * strings never reach it once `validateTimeFormat` has passed; the model lets them fail.
   */
  function ParseTime(time: string): (r: Option<int>)
    ensures r.Some? <==> HasTimeShape(time)
    ensures r.Some? ==> r.value == ClockMinutes(time)
  {
    if HasTimeShape(time) then Some(ClockMinutes(time)) else None
  }

  /**
   * `parseAndCorrectTimes`: trim both times, parse them, and swap them when the start comes
   * after the end. The result is the trimmed pair, in ascending order, and the pair unchanged
   * when it was not inverted.
   */
  function ParseAndCorrectTimes(rawStart: string, rawEnd: string): (r: Option<(string, string)>)
    ensures r.None? <==> !HasTimeShape(Trim(rawStart)) || !HasTimeShape(Trim(rawEnd))
    ensures r.Some? ==> HasTimeShape(r.value.0) && HasTimeShape(r.value.1)
    ensures r.Some? ==> multiset{r.value.0, r.value.1} == multiset{Trim(rawStart), Trim(rawEnd)}
    ensures r.Some? ==> ClockMinutes(r.value.0) <= ClockMinutes(r.value.1)
    ensures r.Some? && ClockMinutes(Trim(rawStart)) <= ClockMinutes(Trim(rawEnd))
            ==> r.value == (Trim(rawStart), Trim(rawEnd))
  {
    var startTime := Trim(rawStart);
    var endTime := Trim(rawEnd);
    var start := ParseTime(startTime);
    var end := ParseTime(endTime);
    if start.None? || end.None? then None
    else if start.value > end.value then Some((endTime, startTime))
    else Some((startTime, endTime))
  }

  /** A `HH:MM` string has no whitespace to trim. */
  lemma TrimKeepsShape(time: string)
    requires HasTimeShape(time)
    ensures Trim(time) == time
  {
  }

  /**
   * Steps 0 to 4 of `store` and `update`: normalise, validate the shape of each field, run the
   * framework rules (`rulesPass`), parse and correct, and refuse a pair whose start is not
   * before its end in PHP's string order.
   */
  function CorrectTimes(req: BookingRequest, rulesPass: bool): (r: Result<(string, string), BookingError>)
    ensures r.Ok? ==> HasTimeShape(r.value.0) && HasTimeShape(r.value.1) && StrLess(r.value.0, r.value.1)
  {
    var rawStart := NormalizeTimeFormat(req.startTime);
    var rawEnd := NormalizeTimeFormat(req.endTime);
    var startError := ValidateTimeFormat(rawStart, StartField);
    var endError := ValidateTimeFormat(rawEnd, EndField);
    if startError.Some? then Err(startError.value)
    else if endError.Some? then Err(endError.value)
    else if !rulesPass then Err(RulesFailed)
    else
      var parsed := ParseAndCorrectTimes(rawStart, rawEnd);
      if parsed.None? then Err(Unparseable)
      else if !StrLess(parsed.value.0, parsed.value.1) then Err(ZeroOrNegativeDuration)
      else Ok(parsed.value)
  }

  /** Once both fields have the `HH:MM` shape, parsing cannot fail: `Unparseable` never occurs. */
  lemma ParseNeverFails(req: BookingRequest, rulesPass: bool)
    ensures CorrectTimes(req, rulesPass) != Err(Unparseable)
  {
    var rawStart := NormalizeTimeFormat(req.startTime);
    var rawEnd := NormalizeTimeFormat(req.endTime);
    NormalizedValidationIsShape(req.startTime, StartField);
    NormalizedValidationIsShape(req.endTime, EndField);
    if HasTimeShape(rawStart) && HasTimeShape(rawEnd) {
      TrimKeepsShape(rawStart);
      TrimKeepsShape(rawEnd);
    }
  }

  /**
   * When the framework rules hold of the raw fields (each a real `HH:MM` time), an accepted
   * pair is the two request times, in strictly ascending order of minutes.
   */
  lemma AcceptedTimesAreOrdered(req: BookingRequest, rulesPass: bool)
    requires rulesPass ==> IsClockTime(req.startTime) && IsClockTime(req.endTime)
    ensures CorrectTimes(req, rulesPass).Ok? ==>
      var (startTime, endTime) := CorrectTimes(req, rulesPass).value;
      && IsClockTime(startTime) && IsClockTime(endTime)
      && ClockMinutes(startTime) < ClockMinutes(endTime)
      && multiset{startTime, endTime} == multiset{req.startTime, req.endTime}
  {
    if CorrectTimes(req, rulesPass).Ok? {
      TrimKeepsShape(req.startTime);
      TrimKeepsShape(req.endTime);
      var (startTime, endTime) := CorrectTimes(req, rulesPass).value;
      assert startTime == req.startTime || startTime == req.endTime;
      assert endTime == req.startTime || endTime == req.endTime;
      StringOrderIsClockOrder(startTime, endTime);
    }
  }

  /** Equal times are always refused, and once the earlier checks pass, as a duration error. */
  lemma EqualTimesRefused(req: BookingRequest, rulesPass: bool)
    requires NormalizeTimeFormat(req.startTime) == NormalizeTimeFormat(req.endTime)
    ensures CorrectTimes(req, rulesPass).Err?
    ensures rulesPass && HasTimeShape(NormalizeTimeFormat(req.startTime))
            ==> CorrectTimes(req, rulesPass) == Err(ZeroOrNegativeDuration)
  {
    var t := NormalizeTimeFormat(req.startTime);
    StrLessIrreflexive(Trim(t));
    if rulesPass && HasTimeShape(t) {
      TrimKeepsShape(t);
    }
  }

  /** Feeding an accepted pair back in gives the same pair. */
  lemma CorrectTimesIdempotent(req: BookingRequest)
    requires CorrectTimes(req, true).Ok?
    ensures var pair := CorrectTimes(req, true).value;
            CorrectTimes(req.(startTime := pair.0, endTime := pair.1), true) == Ok(pair)
  {
    var (startTime, endTime) := CorrectTimes(req, true).value;
    TrimKeepsShape(startTime);
    TrimKeepsShape(endTime);
    TrimKeepsShape(NormalizeTimeFormat(req.startTime));
    TrimKeepsShape(NormalizeTimeFormat(req.endTime));
  }

  /**
   * Two valid times a minute or more apart are always accepted, once the rules pass: in the
   * order given when the start comes first, swapped otherwise.
   */
  lemma DistinctTimesAccepted(req: BookingRequest)
    requires IsClockTime(req.startTime) && IsClockTime(req.endTime)
    requires ClockMinutes(req.startTime) != ClockMinutes(req.endTime)
    ensures CorrectTimes(req, true)
         == Ok(if ClockMinutes(req.startTime) < ClockMinutes(req.endTime) then (req.startTime, req.endTime)
               else (req.endTime, req.startTime))
  {
    TrimKeepsShape(req.startTime);
    TrimKeepsShape(req.endTime);
    StringOrderIsClockOrder(req.startTime, req.endTime);
    StringOrderIsClockOrder(req.endTime, req.startTime);
  }

  /** An inverted pair is swapped rather than refused, and books the hour between the two. */
  lemma InvertedPairIsSwapped(req: BookingRequest)
    requires req.startTime == "10:00" && req.endTime == "09:00"
    ensures CorrectTimes(req, true) == Ok(("09:00", "10:00"))
    ensures BookingDecision([], req, true, None) == Ok(Slot("09:00", "10:00", 540, 600, 60))
  {
    assert IsClockTime("10:00") && ClockMinutes("10:00") == 600;
    assert IsClockTime("09:00") && ClockMinutes("09:00") == 540;
    assert CorrectTimes(req, true) == Ok(("09:00", "10:00")) by {
      DistinctTimesAccepted(req);
    }
    assert Rooms.IsAvailable([], req.roomId, req.date, 540, 600, None);
    assert Users.CanReserve([], req.employeeId, req.date, 540, 600, None);
  }

  /** The normaliser on its own turns `HH:MM:SS` into a pair `parseAndCorrectTimes` accepts. */
  lemma NormalizerCutsSeconds()
    ensures ParseAndCorrectTimes(NormalizeTimeFormat("09:00:00"), NormalizeTimeFormat("10:30:00")) == Some(("09:00", "10:30"))
  {
    assert NormalizeTimeFormat("09:00:00") == "09:00";
    assert NormalizeTimeFormat("10:30:00") == "10:30";
    TrimKeepsShape("09:00");
    TrimKeepsShape("10:30");
    assert ClockMinutes("09:00") == 540 && ClockMinutes("10:30") == 630;
  }

  predicate MaxLength(text: Option<string>, n: nat)
  {
    text.None? || |text.value| <= n
  }

  /**
   * The framework rules `store` runs on the request (`exists`, `after_or_equal:today`,
   * `date_format:H:i`, `max`). They see the raw time fields, not the normalised ones.
   */
  predicate StoreRulesPass(req: BookingRequest, today: int, roomIds: set<int>, userIds: set<int>)
  {
    && req.employeeId in userIds
    && req.roomId in roomIds
    && req.date >= today
    && IsClockTime(req.startTime)
    && IsClockTime(req.endTime)
    && MaxLength(req.purpose, 255)
    && MaxLength(req.notes, 1000)
  }

  /** `update` runs the same rules and also requires a known status. */
  predicate UpdateRulesPass(req: BookingRequest, today: int, roomIds: set<int>, userIds: set<int>)
  {
    StoreRulesPass(req, today, roomIds, userIds) && req.status in Reservations.STATUSES
  }

  /** A corrected slot, as `store` and `update` write it: strings, minutes and duration. */
  datatype Slot = Slot(startTime: string, endTime: string, start: int, end: int, durationMinutes: int)

  /** Unix time of minute `m` of day `date`, as `createFromFormat('Y-m-d H:i', ...)` gives it. */
  function Timestamp(date: int, m: int): int
  {
    date * 86400 + m * 60
  }

  /** The duration `store` and `update` compute: both times on the request's date. */
  function DurationMinutes(date: int, startTime: string, endTime: string): (d: int)
    requires HasTimeShape(startTime) && HasTimeShape(endTime)
    ensures d == ClockMinutes(endTime) - ClockMinutes(startTime)
  {
    (Timestamp(date, ClockMinutes(endTime)) - Timestamp(date, ClockMinutes(startTime))) / 60
  }

  /**
   * The decision shared by `store` and `update`: the corrected times, then the room check and
   * the employee check (both are run, and both failures are reported), then the slot to write.
   */
  function BookingDecision(rows: seq<Reservation>, req: BookingRequest, rulesPass: bool, exclude: Option<int>): (r: Result<Slot, BookingError>)
    requires rulesPass ==> IsClockTime(req.startTime) && IsClockTime(req.endTime)
    ensures r.Ok? ==>
      && IsClockTime(r.value.startTime) && IsClockTime(r.value.endTime)
      && r.value.start == ClockMinutes(r.value.startTime) && r.value.end == ClockMinutes(r.value.endTime)
      && 0 <= r.value.start < r.value.end < 1440
      && 0 < r.value.durationMinutes < 1440
      && r.value.durationMinutes == r.value.end - r.value.start
      && multiset{r.value.startTime, r.value.endTime} == multiset{req.startTime, req.endTime}
      && Rooms.IsAvailable(rows, req.roomId, req.date, r.value.start, r.value.end, exclude)
      && Users.CanReserve(rows, req.employeeId, req.date, r.value.start, r.value.end, exclude)
    ensures r.Ok? ==> rulesPass
  {
    AcceptedTimesAreOrdered(req, rulesPass);
    var times := CorrectTimes(req, rulesPass);
    if times.Err? then Err(times.error)
    else
      var (startTime, endTime) := times.value;
      var s, e := ClockMinutes(startTime), ClockMinutes(endTime);
      var roomFree := Rooms.IsAvailable(rows, req.roomId, req.date, s, e, exclude);
      var employeeFree := Users.CanReserve(rows, req.employeeId, req.date, s, e, exclude);
      if !roomFree || !employeeFree then Err(Unavailable(!roomFree, !employeeFree))
      else Ok(Slot(startTime, endTime, s, e, DurationMinutes(req.date, startTime, endTime)))
  }

  /**
   * Once the times are accepted, the booking goes through iff both checks pass; a free room
   * does not save a busy employee, nor the other way round.
   */
  lemma BothChecksRequired(rows: seq<Reservation>, req: BookingRequest, rulesPass: bool, exclude: Option<int>)
    requires rulesPass ==> IsClockTime(req.startTime) && IsClockTime(req.endTime)
    requires CorrectTimes(req, rulesPass).Ok?
    ensures var (startTime, endTime) := CorrectTimes(req, rulesPass).value;
            var s, e := ClockMinutes(startTime), ClockMinutes(endTime);
            var roomFree := Rooms.IsAvailable(rows, req.roomId, req.date, s, e, exclude);
            var employeeFree := Users.CanReserve(rows, req.employeeId, req.date, s, e, exclude);
            && (BookingDecision(rows, req, rulesPass, exclude).Ok? <==> roomFree && employeeFree)
            && (!roomFree || !employeeFree ==> BookingDecision(rows, req, rulesPass, exclude) == Err(Unavailable(!roomFree, !employeeFree)))
  {
  }

  /** The row `store` creates from an accepted slot. */
  function NewReservation(id: int, req: BookingRequest, slot: Slot): (r: Reservation)
    ensures r.status == "confirmed" && r.id == id
  {
    Reservation(id, req.roomId, req.employeeId, req.date, slot.start, slot.end, "confirmed",
                slot.durationMinutes, req.purpose, req.notes)
  }

  /** The decision of `store`: no reservation is excluded from the two checks. */
  function StoreDecision(rows: seq<Reservation>, req: BookingRequest, today: int, roomIds: set<int>, userIds: set<int>): (r: Result<Slot, BookingError>)
    ensures r.Ok? ==> StoreRulesPass(req, today, roomIds, userIds)
    ensures r.Ok? ==> (Rooms.IsAvailable(rows, req.roomId, req.date, r.value.start, r.value.end, None)
                       && Users.CanReserve(rows, req.employeeId, req.date, r.value.start, r.value.end, None))
  {
    BookingDecision(rows, req, StoreRulesPass(req, today, roomIds, userIds), None)
  }

  /**
   * The row `store` writes is well formed, lies on the requested date, room and employee,
   * carries the request's two times in ascending order with their positive difference as
   * duration, has status `confirmed`, and conflicts with no existing row.
   */
  lemma StoredRowIsSound(rows: seq<Reservation>, req: BookingRequest, today: int, roomIds: set<int>, userIds: set<int>, id: int)
    requires StoreDecision(rows, req, today, roomIds, userIds).Ok?
    ensures var slot := StoreDecision(rows, req, today, roomIds, userIds).value;
            var row := NewReservation(id, req, slot);
            && WellFormed(row) && row.date == req.date >= today
            && row.roomId == req.roomId && row.employeeId == req.employeeId
            && FormatClock(row.start) == slot.startTime && FormatClock(row.end) == slot.endTime
            && multiset{slot.startTime, slot.endTime} == multiset{req.startTime, req.endTime}
            && row.durationMinutes == row.end - row.start > 0
            && row.status == "confirmed" && row.purpose == req.purpose && row.notes == req.notes
            && !Reservations.HasConflict(rows, row, None)
  {
    var slot := StoreDecision(rows, req, today, roomIds, userIds).value;
    ClockRoundTrip(slot.startTime);
    ClockRoundTrip(slot.endTime);
  }

  /**
   * A time sent with seconds never gets past `store`: `date_format:H:i` runs on the raw field,
   * so the normalisation that accepts `HH:MM:SS` is undone by the rule that follows it.
   */
  lemma SecondsAreRefusedByStore(rows: seq<Reservation>, req: BookingRequest, today: int, roomIds: set<int>, userIds: set<int>)
    requires |req.startTime| > 5 || |req.endTime| > 5
    ensures StoreDecision(rows, req, today, roomIds, userIds).Err?
  {
  }

  /**
   * The decision of `update`: refused unless the reservation can still be modified; otherwise
   * the two checks run with the reservation's own id excluded.
   */
  function UpdateDecision(rows: seq<Reservation>, target: Reservation, req: BookingRequest, today: int, roomIds: set<int>, userIds: set<int>): (r: Result<Slot, BookingError>)
    ensures !Reservations.CanBeModified(target, today) ==> r == Err(NotModifiable)
    ensures r.Ok? ==> Reservations.CanBeModified(target, today) && UpdateRulesPass(req, today, roomIds, userIds)
    ensures r.Ok? ==> (Rooms.IsAvailable(rows, req.roomId, req.date, r.value.start, r.value.end, Some(target.id))
                       && Users.CanReserve(rows, req.employeeId, req.date, r.value.start, r.value.end, Some(target.id)))
  {
    if !Reservations.CanBeModified(target, today) then Err(NotModifiable)
    else BookingDecision(rows, req, UpdateRulesPass(req, today, roomIds, userIds), Some(target.id))
  }

  /** As for `store`, a time sent with seconds never gets through `update`. */
  lemma SecondsAreRefusedByUpdate(rows: seq<Reservation>, target: Reservation, req: BookingRequest, today: int, roomIds: set<int>, userIds: set<int>)
    requires |req.startTime| > 5 || |req.endTime| > 5
    ensures UpdateDecision(rows, target, req, today, roomIds, userIds).Err?
  {
  }

  /** The row `update` writes: every request field over the old row, id kept. */
  function UpdatedReservation(target: Reservation, req: BookingRequest, slot: Slot): (r: Reservation)
    ensures r.id == target.id && r.status == req.status
  {
    target.(roomId := req.roomId, employeeId := req.employeeId, date := req.date,
            start := slot.start, end := slot.end, durationMinutes := slot.durationMinutes,
            purpose := req.purpose, status := req.status, notes := req.notes)
  }

  /**
   * The row `update` writes is well formed and keeps its id; it takes the requested room,
   * employee, date, status, purpose and notes, the request's two times in ascending order with
   * their positive difference as duration, and clashes with no row other than itself.
   */
  lemma UpdatedRowIsSound(rows: seq<Reservation>, target: Reservation, req: BookingRequest, today: int, roomIds: set<int>, userIds: set<int>)
    requires UpdateDecision(rows, target, req, today, roomIds, userIds).Ok?
    ensures var slot := UpdateDecision(rows, target, req, today, roomIds, userIds).value;
            var row := UpdatedReservation(target, req, slot);
            && WellFormed(row) && row.id == target.id
            && row.roomId == req.roomId && row.employeeId == req.employeeId && row.date == req.date
            && FormatClock(row.start) == slot.startTime && FormatClock(row.end) == slot.endTime
            && multiset{slot.startTime, slot.endTime} == multiset{req.startTime, req.endTime}
            && row.durationMinutes == row.end - row.start > 0
            && row.status == req.status && row.purpose == req.purpose && row.notes == req.notes
            && !Reservations.HasConflict(rows, row, Some(target.id))
  {
    var slot := UpdateDecision(rows, target, req, today, roomIds, userIds).value;
    ClockRoundTrip(slot.startTime);
    ClockRoundTrip(slot.endTime);
  }

  /** `cancel` and `destroy` are refused unless the reservation can still be cancelled. */
  function CancelGuard(target: Reservation, today: int): (r: Option<BookingError>)
    ensures r.None? <==> Reservations.CanBeCancelled(target, today)
    ensures r.Some? ==> r.value == NotCancellable
  {
    if Reservations.CanBeCancelled(target, today) then None else Some(NotCancellable)
  }
}
