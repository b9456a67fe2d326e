/**
 * `App\Models\Reservation`: the lifecycle guards, the conflict check and the display
 * accessors of a reservation row. "Today" is a parameter instead of a clock read.
 */
module Reservations {
  import opened Base
  import opened PhpString
  import opened ClockTime
  import opened Schedule
  import Rooms
  import Users

  /** `Reservation::STATUSES`: the four statuses and their labels. */
  const STATUSES: map<string, string> :=
    map["pending" := "En attente", "confirmed" := "Confirmée", "cancelled" := "Annulée", "completed" := "Terminée"]

  /** `getStatusNameAttribute`: the label of a known status, the raw status otherwise. */
  function StatusName(status: string): (r: string)
    ensures status in STATUSES ==> r == STATUSES[status] && r != status
    ensures status !in STATUSES ==> r == status
  {
    if status in STATUSES then STATUSES[status] else status
  }

  /** `canBeModified()`: not cancelled, not completed, and not in the past. */
  predicate CanBeModified(r: Reservation, today: int)
  {
    r.status != "cancelled" && r.status != "completed" && r.date >= today
  }

  /** `canBeCancelled()`: written out separately in the model class, with the same condition. */
  predicate CanBeCancelled(r: Reservation, today: int)
  {
    r.status != "cancelled" && r.status != "completed" && r.date >= today
  }

  /** The two guards are one predicate, and it needs an open status and a date not yet past. */
  lemma GuardsAgree(r: Reservation, today: int)
    ensures CanBeModified(r, today) == CanBeCancelled(r, today)
    ensures CanBeModified(r, today) ==> r.status !in {"cancelled", "completed"} && today <= r.date
  {
  }

  /** Once cancelled or completed, a reservation can be neither modified nor cancelled, on any day. */
  lemma ClosedStaysClosed(r: Reservation, today: int)
    requires r.status == "cancelled" || r.status == "completed"
    ensures !CanBeModified(r, today) && !CanBeCancelled(r, today)
  {
  }

  /** A reservation that can be modified today could be modified on every earlier day too. */
  lemma GuardsOnlyExpire(r: Reservation, earlier: int, later: int)
    requires earlier <= later
    ensures CanBeModified(r, later) ==> CanBeModified(r, earlier)
  {
  }

  /** `hasConflict($excludeId)`: the room check fails or the employee check fails. */
  predicate HasConflict(rows: seq<Reservation>, r: Reservation, exclude: Option<int>)
  {
    || !Rooms.IsAvailable(rows, r.roomId, r.date, r.start, r.end, exclude)
    || !Users.CanReserve(rows, r.employeeId, r.date, r.start, r.end, exclude)
  }

  /** A conflict is a non-excluded row of the same room or the same employee that clashes. */
  lemma HasConflictIff(rows: seq<Reservation>, r: Reservation, exclude: Option<int>)
    ensures HasConflict(rows, r, exclude)
        <==> exists i :: 0 <= i < |rows| && (rows[i].roomId == r.roomId || rows[i].employeeId == r.employeeId)
                         && Clashes(rows[i], r.date, r.start, r.end, exclude)
  {
    Rooms.IsAvailableIff(rows, r.roomId, r.date, r.start, r.end, exclude);
    Users.CanReserveIff(rows, r.employeeId, r.date, r.start, r.end, exclude);
  }

  /** Called on a stored row without excluding its own id, `hasConflict` finds the row itself. */
  lemma StoredRowConflictsWithItself(rows: seq<Reservation>, k: int, exclude: Option<int>)
    requires 0 <= k < |rows| && rows[k].start < rows[k].end
    requires !Excludes(exclude, rows[k].id)
    ensures HasConflict(rows, rows[k], exclude)
  {
    HasConflictIff(rows, rows[k], exclude);
  }

  /** A positive multiple of `b` is at least `b`. */
  lemma {:induction false} PositiveMultiple(k: nat, b: int)
    requires b > 0 && k > 0
    ensures k * b >= b
  {
    if k > 1 {
      PositiveMultiple(k - 1, b);
      assert k * b == (k - 1) * b + b;
    }
  }

  /** A non-zero multiple of `b` is at least `b` away from zero. */
  lemma ProductBound(k: int, b: int)
    requires b > 0 && k != 0
    ensures k * b >= b || k * b <= -b
  {
    if k > 0 {
      PositiveMultiple(k, b);
    } else {
      PositiveMultiple(-k, b);
      assert k * b == -((-k) * b);
    }
  }

  /** Euclidean `%` leaves no remainder on a multiple of `b`. */
  lemma ModOfMultiple(q: int, b: int)
    requires b > 0
    ensures (q * b) % b == 0
  {
    var x := q * b;
    var d := x / b;
    assert x == d * b + x % b;
    assert (q - d) * b == x % b;
    if q != d {
      ProductBound(q - d, b);
    }
  }

  /** PHP's `%`: the remainder takes the sign of the dividend. */
  function PhpMod(a: int, b: int): (r: int)
    requires b > 0
    ensures -b < r < b
    ensures a >= 0 ==> r == a % b
    ensures (a - r) % b == 0
    ensures a < 0 ==> r <= 0
  {
    if a >= 0 then
      ModOfMultiple(a / b, b);
      a % b
    else
      var q := (-a) / b;
      ModOfMultiple(-q, b);
      assert a - -((-a) % b) == (-q) * b;
      -((-a) % b)
  }

  /**
   * `getFormattedDurationAttribute`: `floor($d / 60)` hours and `$d % 60` minutes, printed as
   * `"{h}h {m}min"`, `"{h}h"` or `"{m}min"`; a zero duration prints nothing.
   */
  function FormattedDuration(d: int): (r: string)
    ensures r == "" <==> d == 0
  {
    if d == 0 then ""
    else
      var hours := d / 60;
      var minutes := PhpMod(d, 60);
      if hours > 0 && minutes > 0 then IntToString(hours) + "h " + IntToString(minutes) + "min"
      else if hours > 0 then IntToString(hours) + "h"
      else IntToString(minutes) + "min"
  }

  /** The split into hours and minutes: the only `h`, `m` with `h * 60 + m == d` and `0 <= m < 60`. */
  lemma DurationSplit(d: nat, h: nat, m: nat)
    requires h * 60 + m == d && m < 60
    ensures h == d / 60 && m == PhpMod(d, 60)
  {
  }

  /** The four shapes of the formatted duration, for a non-negative duration `h * 60 + m`. */
  lemma FormattedDurationCases(d: nat, h: nat, m: nat)
    requires h * 60 + m == d && m < 60
    ensures d == 0 ==> FormattedDuration(d) == ""
    ensures h > 0 && m > 0 ==> FormattedDuration(d) == NatToString(h) + "h " + NatToString(m) + "min"
    ensures h > 0 && m == 0 ==> FormattedDuration(d) == NatToString(h) + "h"
    ensures h == 0 && m > 0 ==> FormattedDuration(d) == NatToString(m) + "min"
  {
    DurationSplit(d, h, m);
  }

  /** A negative duration falls through to the minutes branch with PHP's signed remainder. */
  lemma NegativeDurationPrintsMinutes(d: int)
    requires d < 0
    ensures FormattedDuration(d) == IntToString(PhpMod(d, 60)) + "min"
    ensures -60 < PhpMod(d, 60) <= 0
  {
  }

  /** For instance `-90` prints `-30min`, and `-60` prints `0min`. */
  lemma NegativeDurationExamples()
    ensures FormattedDuration(-90) == "-30min"
    ensures FormattedDuration(-60) == "0min"
  {
    NegativeDurationPrintsMinutes(-90);
    NegativeDurationPrintsMinutes(-60);
    assert PhpMod(-90, 60) == -30;
    assert PhpMod(-60, 60) == 0;
  }

  /** Reads a formatted duration back: leading digits, then `h`, `min` or `h {m}min`. */
  function ParseFormattedDuration(s: string): Option<nat>
  {
    var k := LeadingDigits(s);
    LeadingDigitsAreDigits(s);
    if k == 0 then None else ParseUnit(DigitsValue(s[..k]), s[k..])
  }

  /** The unit after the leading number `n`. */
  function ParseUnit(n: nat, rest: string): Option<nat>
  {
    if rest == "min" then Some(n)
    else if rest == "h" then Some(n * 60)
    else if |rest| > 5 && rest[..2] == "h " && rest[|rest| - 3..] == "min" && AllDigits(rest[2..|rest| - 3]) then
      Some(n * 60 + DigitsValue(rest[2..|rest| - 3]))
    else None
  }

  /** Splits `d + t` after its digits `d`. */
  lemma SplitAfterDigits(d: string, t: string)
    requires AllDigits(d) && d != []
    requires t != [] && !IsDigit(t[0])
    ensures LeadingDigits(d + t) == |d| && (d + t)[..|d|] == d && (d + t)[|d|..] == t
  {
    LeadingDigitsOfConcat(d, t);
  }

  /** The unit `h {m}min` after a number of hours. */
  lemma ParseUnitHoursMinutes(n: nat, ms: string)
    requires AllDigits(ms) && ms != []
    ensures ParseUnit(n, "h " + ms + "min") == Some(n * 60 + DigitsValue(ms))
  {
    var t := "h " + ms + "min";
    assert t[..2] == "h " && t[2..|t| - 3] == ms && t[|t| - 3..] == "min";
    assert t != "min" && t != "h";
  }

  /** After a run of digits `d`, the parser reads the unit `t` with `d`'s value. */
  lemma ParseAfterDigits(d: string, t: string)
    requires AllDigits(d) && d != []
    requires t != [] && !IsDigit(t[0])
    ensures ParseFormattedDuration(d + t) == ParseUnit(DigitsValue(d), t)
  {
    SplitAfterDigits(d, t);
  }

  /** Reads back hours and minutes written in any digits. */
  lemma ReadBackDigitPair(hs: string, ms: string)
    requires AllDigits(hs) && hs != [] && AllDigits(ms) && ms != []
    ensures ParseFormattedDuration(hs + "h " + ms + "min") == Some(DigitsValue(hs) * 60 + DigitsValue(ms))
  {
    assert hs + "h " + ms + "min" == hs + ("h " + ms + "min");
    ParseAfterDigits(hs, "h " + ms + "min");
    ParseUnitHoursMinutes(DigitsValue(hs), ms);
  }

  /** Reads back `"{h}h {m}min"`. */
  lemma ReadBackHoursAndMinutes(h: nat, m: nat, hs: string, ms: string)
    requires hs == NatToString(h) && ms == NatToString(m)
    ensures ParseFormattedDuration(hs + "h " + ms + "min") == Some(h * 60 + m)
  {
    NatToStringValue(h);
    NatToStringValue(m);
    ReadBackDigitPair(hs, ms);
  }

  /** Reads back `"{h}h"`. */
  lemma ReadBackHours(h: nat, hs: string)
    requires hs == NatToString(h)
    ensures ParseFormattedDuration(hs + "h") == Some(h * 60)
  {
    NatToStringValue(h);
    ParseAfterDigits(hs, "h");
  }

  /** Reads back `"{m}min"`. */
  lemma ReadBackMinutes(m: nat, ms: string)
    requires ms == NatToString(m)
    ensures ParseFormattedDuration(ms + "min") == Some(m)
  {
    NatToStringValue(m);
    ParseAfterDigits(ms, "min");
  }

  /** The formatted duration loses nothing: a positive duration is read back exactly. */
  lemma FormattedDurationRoundTrip(d: nat)
    requires d > 0
    ensures ParseFormattedDuration(FormattedDuration(d)) == Some(d)
  {
    var h, m := d / 60, d % 60;
    var hs, ms := NatToString(h), NatToString(m);
    if h > 0 && m > 0 {
      assert FormattedDuration(d) == hs + "h " + ms + "min" by {
        FormattedDurationCases(d, h, m);
      }
      ReadBackHoursAndMinutes(h, m, hs, ms);
    } else if h > 0 {
      assert FormattedDuration(d) == hs + "h" by {
        FormattedDurationCases(d, h, m);
      }
      ReadBackHours(h, hs);
    } else {
      assert FormattedDuration(d) == ms + "min" by {
        FormattedDurationCases(d, h, m);
      }
      ReadBackMinutes(m, ms);
    }
  }

  /** Hence two different positive durations never print alike. */
  lemma FormattedDurationInjective(d1: nat, d2: nat)
    requires d1 > 0 && d2 > 0 && FormattedDuration(d1) == FormattedDuration(d2)
    ensures d1 == d2
  {
    FormattedDurationRoundTrip(d1);
    FormattedDurationRoundTrip(d2);
  }

  /**
   * `getFormattedStartTimeAttribute` / `getFormattedEndTimeAttribute`: null for a missing or
   * PHP-falsy (`""`, `"0"`) time, the first five characters of a string of at most eight, and
   * otherwise `carbonFormatted`, the `H:i` rendering Carbon's parser gives.
   */
  function FormattedTime(time: Option<string>, carbonFormatted: string): (r: Option<string>)
    ensures r.None? <==> time.None? || time.value == "" || time.value == "0"
    ensures r.Some? && |time.value| <= 8 ==> r.value <= time.value && |r.value| == if |time.value| < 5 then |time.value| else 5
    ensures r.Some? && |time.value| > 8 ==> r.value == carbonFormatted
  {
    if time.None? || time.value == "" || time.value == "0" then None
    else if |time.value| <= 8 then Some(Prefix(time.value, 5))
    else Some(carbonFormatted)
  }

  /** A stored minute reads back as its `HH:MM`, whether the column returns `HH:MM:SS` or `HH:MM`. */
  lemma StoredTimeReadsBack(m: nat, carbonFormatted: string)
    requires m < 1440
    ensures FormattedTime(Some(TimeColumnValue(m)), carbonFormatted) == Some(FormatClock(m))
    ensures FormattedTime(Some(FormatClock(m)), carbonFormatted) == Some(FormatClock(m))
  {
  }
}
