/**
 * The reservation record and the overlap test that the room and the employee availability
 * queries share. Times are minutes after midnight, dates are day numbers.
 */
module Schedule {
  import opened Base

  /** One row of the `reservations` table. */
  datatype Reservation = Reservation(
    id: int,
    roomId: int,
    employeeId: int,
    date: int,
    start: int,
    end: int,
    status: string,
    durationMinutes: int,
    purpose: Option<string>,
    notes: Option<string>)

  /** Two rows that agree on everything the availability queries read. */
  predicate SameSlot(a: Reservation, b: Reservation)
  {
    a.id == b.id && a.roomId == b.roomId && a.employeeId == b.employeeId
    && a.date == b.date && a.start == b.start && a.end == b.end
  }

  /** A stored slot lies within one day and is not empty. */
  predicate WellFormed(r: Reservation)
  {
    0 <= r.start < r.end < 1440
  }

  /**
   * The three `orWhere` cases of the availability queries, for an existing row
   * `[start, end]` and a candidate `[s, e]`: the candidate starts inside the row, ends inside
   * it, or encloses it.
   */
  predicate ThreeCaseConflict(start: int, end: int, s: int, e: int)
  {
    || (start <= s && end > s)
    || (start < e && end >= e)
    || (start >= s && end <= e)
  }

  /** Two half-open intervals `[s1, e1)` and `[s2, e2)` share a minute. */
  predicate HalfOpenOverlap(s1: int, e1: int, s2: int, e2: int)
  {
    s1 < e2 && s2 < e1
  }

  /** For non-empty intervals the three cases are exactly the half-open overlap. */
  lemma ThreeCaseIsHalfOpen(start: int, end: int, s: int, e: int)
    requires start < end && s < e
    ensures ThreeCaseConflict(start, end, s, e) <==> HalfOpenOverlap(start, end, s, e)
  {
  }

  /** An empty row that sits on the candidate's start clashes under the three cases but not half-open. */
  lemma ThreeCaseNeedsNonEmptyRows()
    ensures ThreeCaseConflict(600, 600, 600, 660) && !HalfOpenOverlap(600, 600, 600, 660)
  {
  }

  /** On non-empty intervals the clash relation does not depend on which one is the candidate. */
  lemma ThreeCaseSymmetric(s1: int, e1: int, s2: int, e2: int)
    requires s1 < e1 && s2 < e2
    ensures ThreeCaseConflict(s1, e1, s2, e2) <==> ThreeCaseConflict(s2, e2, s1, e1)
  {
  }

  /** `if ($excludeReservationId) where('id', '!=', ...)`: a null or zero id excludes nothing. */
  predicate Excludes(exclude: Option<int>, id: int)
  {
    exclude.Some? && exclude.value != 0 && exclude.value == id
  }

  /** A row the availability query on `date` and `[s, e]` would count. */
  predicate Clashes(r: Reservation, date: int, s: int, e: int, exclude: Option<int>)
  {
    r.date == date && ThreeCaseConflict(r.start, r.end, s, e) && !Excludes(exclude, r.id)
  }

  /** The `count()` of the availability query over the rows of one room or one employee. */
  function CountClashes(rs: seq<Reservation>, date: int, s: int, e: int, exclude: Option<int>): (n: nat)
    ensures n <= |rs|
    ensures n == 0 <==> forall i :: 0 <= i < |rs| ==> !Clashes(rs[i], date, s, e, exclude)
  {
    if rs == [] then 0
    else
      CountClashes(rs[1..], date, s, e, exclude)
      + (if Clashes(rs[0], date, s, e, exclude) then 1 else 0)
  }
}
