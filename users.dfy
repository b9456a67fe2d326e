/** `App\Models\User`: the role check, the full name and the employee availability query. */
module Users {
  import opened Base
  import opened PhpString
  import opened Schedule

  /** `isAdmin()`: the role is exactly `admin` (strict comparison, so a null role is not). */
  predicate IsAdmin(role: Option<string>)
  {
    role == Some("admin")
  }

  /** The role must be exactly `admin`: a null role, another case or added spaces do not count. */
  lemma OnlyExactAdminRole(role: Option<string>)
    ensures IsAdmin(role) <==> role.Some? && role.value == "admin"
    ensures !IsAdmin(None) && !IsAdmin(Some("Admin")) && !IsAdmin(Some("admin "))
  {
  }

  /** `getFullNameAttribute`: `trim(first_name . ' ' . name)`; a null first name reads as "". */
  function FullName(firstName: string, name: string): (r: string)
    ensures r == [] || (!IsSpace(r[0]) && !IsSpace(r[|r| - 1]))
    ensures |r| <= |firstName| + 1 + |name|
  {
    Trim(firstName + " " + name)
  }

  /** With no first name the full name is the trimmed name, so it never starts with a space. */
  lemma FullNameWithoutFirstName(name: string)
    ensures FullName("", name) == Trim(name)
  {
    assert "" + " " + name == [' '] + name;
    TrimSkipsLeadingSpace(' ', name);
  }

  /** Names with no surrounding whitespace are joined by exactly one space. */
  lemma FullNameJoins(firstName: string, name: string)
    requires firstName != [] && !IsSpace(firstName[0])
    requires name != [] && !IsSpace(name[|name| - 1])
    ensures FullName(firstName, name) == firstName + " " + name
  {
    var s := firstName + " " + name;
    assert s[0] == firstName[0] && s[|s| - 1] == name[|name| - 1];
  }

  /** `$user->reservations()`: the rows whose `employee_id` is this employee, in any room. */
  function OfEmployee(rows: seq<Reservation>, employeeId: int): (rs: seq<Reservation>)
    ensures |rs| <= |rows|
    ensures forall r :: r in rs <==> r in rows && r.employeeId == employeeId
  {
    if rows == [] then []
    else (if rows[0].employeeId == employeeId then [rows[0]] else []) + OfEmployee(rows[1..], employeeId)
  }

  /**
   * `canReserve($date, $startTime, $endTime, $excludeReservationId)`: none of the employee's
   * rows on that date, whatever the room and whatever the status, other than the excluded one,
   * falls under one of the three clash cases.
   */
  predicate CanReserve(rows: seq<Reservation>, employeeId: int, date: int, s: int, e: int, exclude: Option<int>)
  {
    CountClashes(OfEmployee(rows, employeeId), date, s, e, exclude) == 0
  }

  /** The query, row by row: the employee is free iff no row of theirs clashes. */
  lemma CanReserveIff(rows: seq<Reservation>, employeeId: int, date: int, s: int, e: int, exclude: Option<int>)
    ensures CanReserve(rows, employeeId, date, s, e, exclude)
        <==> forall i :: 0 <= i < |rows| ==> !(rows[i].employeeId == employeeId && Clashes(rows[i], date, s, e, exclude))
  {
    var rs := OfEmployee(rows, employeeId);
    if CanReserve(rows, employeeId, date, s, e, exclude) {
      forall i | 0 <= i < |rows| && rows[i].employeeId == employeeId
        ensures !Clashes(rows[i], date, s, e, exclude)
      {
        assert rows[i] in rs;
        var j :| 0 <= j < |rs| && rs[j] == rows[i];
      }
    } else {
      var j :| 0 <= j < |rs| && Clashes(rs[j], date, s, e, exclude);
      assert rs[j] in rows;
      var i :| 0 <= i < |rows| && rows[i] == rs[j];
    }
  }

  /**
   * With non-empty slots the employee is free iff no half-open slot of theirs on that date
   * meets `[s, e)`; by the symmetry of that test, it does not matter which slot is the new one.
   */
  lemma CanReserveIffNoOverlap(rows: seq<Reservation>, employeeId: int, date: int, s: int, e: int, exclude: Option<int>)
    requires forall i :: 0 <= i < |rows| ==> rows[i].start < rows[i].end
    requires s < e
    ensures CanReserve(rows, employeeId, date, s, e, exclude)
        <==> forall i :: 0 <= i < |rows| && rows[i].employeeId == employeeId && rows[i].date == date
                         && !Excludes(exclude, rows[i].id)
                         ==> !HalfOpenOverlap(s, e, rows[i].start, rows[i].end)
  {
    CanReserveIff(rows, employeeId, date, s, e, exclude);
  }

  /** Every row except the ones carrying id `x`. */
  function WithoutId(rows: seq<Reservation>, x: int): (rs: seq<Reservation>)
    ensures forall r :: r in rs <==> r in rows && r.id != x
  {
    if rows == [] then []
    else (if rows[0].id != x then [rows[0]] else []) + WithoutId(rows[1..], x)
  }

  /** The query, stored row by stored row, in terms of membership. */
  lemma CanReserveIffMembers(rows: seq<Reservation>, employeeId: int, date: int, s: int, e: int, exclude: Option<int>)
    ensures CanReserve(rows, employeeId, date, s, e, exclude)
        <==> forall r :: r in rows && r.employeeId == employeeId ==> !Clashes(r, date, s, e, exclude)
  {
    var rs := OfEmployee(rows, employeeId);
    if CanReserve(rows, employeeId, date, s, e, exclude) {
      forall r | r in rows && r.employeeId == employeeId
        ensures !Clashes(r, date, s, e, exclude)
      {
        assert r in rs;
        var j :| 0 <= j < |rs| && rs[j] == r;
      }
    } else {
      var j :| 0 <= j < |rs| && Clashes(rs[j], date, s, e, exclude);
      assert rs[j] in rows;
    }
  }

  /** Passing a (non-zero) exclude id is the same as asking without the rows of that id. */
  lemma ExcludeRemovesExactlyThatRow(rows: seq<Reservation>, employeeId: int, date: int, s: int, e: int, x: int)
    requires x != 0
    ensures CanReserve(rows, employeeId, date, s, e, Some(x)) == CanReserve(WithoutId(rows, x), employeeId, date, s, e, None)
  {
    CanReserveIffMembers(rows, employeeId, date, s, e, Some(x));
    CanReserveIffMembers(WithoutId(rows, x), employeeId, date, s, e, None);
  }

  /** Status is not filtered: a cancelled reservation still blocks its employee. */
  lemma CancelledStillBlocksEmployee(rows: seq<Reservation>, k: int, employeeId: int, date: int, s: int, e: int, exclude: Option<int>)
    requires 0 <= k < |rows|
    ensures CanReserve(rows[k := rows[k].(status := "cancelled")], employeeId, date, s, e, exclude)
        == CanReserve(rows, employeeId, date, s, e, exclude)
  {
    var cancelled := rows[k := rows[k].(status := "cancelled")];
    CanReserveIff(cancelled, employeeId, date, s, e, exclude);
    CanReserveIff(rows, employeeId, date, s, e, exclude);
    assert forall i :: 0 <= i < |rows| ==> SameSlot(cancelled[i], rows[i]);
  }
}
