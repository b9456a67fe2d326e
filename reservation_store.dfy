/**
 * The `reservations` table as the controller's actions change it: `store` appends a row,
 * `update` rewrites one, `cancel` flips its status, `destroy` deletes it, and assigning
 * `duration_minutes` goes through the model's mutator. The table keeps an invariant the
 * controller's two availability checks are there to protect: no two rows of the same room or
 * the same employee overlap on the same day.
 */
module ReservationStore {
  import opened Base
  import opened Schedule
  import opened ClockTime
  import opened ReservationController
  import Rooms
  import Users
  import Reservations

  /** Two rows that share a room or an employee, on the same day, for at least one minute. */
  predicate Collide(a: Reservation, b: Reservation)
  {
    && a.date == b.date
    && (a.roomId == b.roomId || a.employeeId == b.employeeId)
    && HalfOpenOverlap(a.start, a.end, b.start, b.end)
  }

  predicate NoDoubleBooking(rows: seq<Reservation>)
  {
    forall i, j :: 0 <= i < |rows| && 0 <= j < |rows| && i != j ==> !Collide(rows[i], rows[j])
  }

  predicate DistinctIds(rows: seq<Reservation>)
  {
    forall i, j :: 0 <= i < j < |rows| ==> rows[i].id != rows[j].id
  }

  /** Every id was handed out before `nextId`. */
  predicate IdsBelow(rows: seq<Reservation>, nextId: int)
  {
    forall i :: 0 <= i < |rows| ==> 1 <= rows[i].id < nextId
  }

  predicate AllWellFormed(rows: seq<Reservation>)
  {
    forall i :: 0 <= i < |rows| ==> WellFormed(rows[i])
  }

  /** Route-model binding: the position of the row with this id, if there is one. */
  function IndexOfId(rows: seq<Reservation>, id: int): (k: Option<nat>)
    ensures k.Some? ==> k.value < |rows| && rows[k.value].id == id
    ensures k.Some? ==> forall i :: 0 <= i < k.value ==> rows[i].id != id
    ensures k.None? <==> forall i :: 0 <= i < |rows| ==> rows[i].id != id
  {
    if rows == [] then None
    else if rows[0].id == id then Some(0)
    else
      var rest := IndexOfId(rows[1..], id);
      if rest.None? then None else Some(rest.value + 1)
  }

  /** A row that passed both availability checks against a table collides with none of its rows. */
  lemma CheckedRowCollidesWithNothing(rows: seq<Reservation>, x: Reservation, exclude: Option<int>, i: int)
    requires AllWellFormed(rows) && WellFormed(x)
    requires !Reservations.HasConflict(rows, x, exclude)
    requires 0 <= i < |rows| && !Excludes(exclude, rows[i].id)
    ensures !Collide(rows[i], x) && !Collide(x, rows[i])
  {
    Rooms.IsAvailableIff(rows, x.roomId, x.date, x.start, x.end, exclude);
    Users.CanReserveIff(rows, x.employeeId, x.date, x.start, x.end, exclude);
    ThreeCaseIsHalfOpen(rows[i].start, rows[i].end, x.start, x.end);
  }

  /** Appending a row that passed both checks keeps the table free of double bookings. */
  lemma AppendKeepsNoDoubleBooking(rows: seq<Reservation>, x: Reservation)
    requires AllWellFormed(rows) && WellFormed(x) && NoDoubleBooking(rows)
    requires !Reservations.HasConflict(rows, x, None)
    ensures NoDoubleBooking(rows + [x])
  {
    var all := rows + [x];
    forall i, j | 0 <= i < |all| && 0 <= j < |all| && i != j
      ensures !Collide(all[i], all[j])
    {
      if i == |rows| {
        CheckedRowCollidesWithNothing(rows, x, None, j);
      } else if j == |rows| {
        CheckedRowCollidesWithNothing(rows, x, None, i);
      } else {
        assert all[i] == rows[i] && all[j] == rows[j];
      }
    }
  }

  /** The row `store` appends keeps every part of the table invariant, with `id` the next id. */
  lemma StoreKeepsInvariant(rows: seq<Reservation>, req: BookingRequest, today: int, roomIds: set<int>, userIds: set<int>, id: int)
    requires AllWellFormed(rows) && NoDoubleBooking(rows) && DistinctIds(rows)
    requires 1 <= id && IdsBelow(rows, id)
    requires StoreDecision(rows, req, today, roomIds, userIds).Ok?
    ensures var all := rows + [NewReservation(id, req, StoreDecision(rows, req, today, roomIds, userIds).value)];
            && AllWellFormed(all) && NoDoubleBooking(all) && DistinctIds(all)
            && IdsBelow(all, id + 1)
  {
    var row := NewReservation(id, req, StoreDecision(rows, req, today, roomIds, userIds).value);
    assert WellFormed(row) && !Reservations.HasConflict(rows, row, None) by {
      StoredRowIsSound(rows, req, today, roomIds, userIds, id);
    }
    AppendKeepsNoDoubleBooking(rows, row);
    AppendFreshIdKeepsIds(rows, row, id);
  }

  /** Appending a well-formed row whose id is above every stored id keeps the ids and slots sound. */
  lemma AppendFreshIdKeepsIds(rows: seq<Reservation>, x: Reservation, id: int)
    requires AllWellFormed(rows) && DistinctIds(rows) && WellFormed(x) && x.id == id
    requires 1 <= id && IdsBelow(rows, id)
    ensures var all := rows + [x];
            && AllWellFormed(all) && DistinctIds(all)
            && IdsBelow(all, id + 1)
  {
    var all := rows + [x];
    assert forall i :: 0 <= i < |rows| ==> all[i] == rows[i];
  }

  /**
   * Rewriting row `k` with a row that keeps its id and passed both checks with that id
   * excluded keeps the table free of double bookings: with distinct ids, the exclusion skips
   * row `k` and nothing else.
   */
  lemma ReplaceKeepsNoDoubleBooking(rows: seq<Reservation>, k: int, x: Reservation)
    requires AllWellFormed(rows) && WellFormed(x) && NoDoubleBooking(rows) && DistinctIds(rows)
    requires 0 <= k < |rows| && x.id == rows[k].id
    requires !Reservations.HasConflict(rows, x, Some(x.id))
    ensures NoDoubleBooking(rows[k := x])
  {
    var all := rows[k := x];
    forall i, j | 0 <= i < |all| && 0 <= j < |all| && i != j
      ensures !Collide(all[i], all[j])
    {
      if i == k {
        assert rows[j].id != x.id;
        CheckedRowCollidesWithNothing(rows, x, Some(x.id), j);
      } else if j == k {
        assert rows[i].id != x.id;
        CheckedRowCollidesWithNothing(rows, x, Some(x.id), i);
      }
    }
  }

  /**
   * In a table without double bookings, a stored reservation that excludes its own (non-zero)
   * id finds both its room and its employee free for its own slot.
   */
  lemma SelfExclusionFrees(rows: seq<Reservation>, k: int)
    requires AllWellFormed(rows) && NoDoubleBooking(rows)
    requires 0 <= k < |rows| && rows[k].id != 0
    ensures Rooms.IsAvailable(rows, rows[k].roomId, rows[k].date, rows[k].start, rows[k].end, Some(rows[k].id))
    ensures Users.CanReserve(rows, rows[k].employeeId, rows[k].date, rows[k].start, rows[k].end, Some(rows[k].id))
  {
    var r := rows[k];
    forall i | 0 <= i < |rows| && (rows[i].roomId == r.roomId || rows[i].employeeId == r.employeeId)
      ensures !Clashes(rows[i], r.date, r.start, r.end, Some(r.id))
    {
      if i != k && rows[i].id != r.id && rows[i].date == r.date {
        assert !Collide(rows[i], r);
        ThreeCaseIsHalfOpen(rows[i].start, rows[i].end, r.start, r.end);
      }
    }
    Rooms.IsAvailableIff(rows, r.roomId, r.date, r.start, r.end, Some(r.id));
    Users.CanReserveIff(rows, r.employeeId, r.date, r.start, r.end, Some(r.id));
  }

  /**
   * Re-submitting a stored reservation's own room, employee, date and times through `update`
   * is accepted: it is never refused as a conflict with itself.
   */
  lemma EditInPlaceIsNotSelfConflict(rows: seq<Reservation>, k: int, req: BookingRequest, today: int, roomIds: set<int>, userIds: set<int>)
    requires AllWellFormed(rows) && NoDoubleBooking(rows)
    requires 0 <= k < |rows| && rows[k].id != 0
    requires Reservations.CanBeModified(rows[k], today) && UpdateRulesPass(req, today, roomIds, userIds)
    requires req.roomId == rows[k].roomId && req.employeeId == rows[k].employeeId && req.date == rows[k].date
    requires req.startTime == FormatClock(rows[k].start) && req.endTime == FormatClock(rows[k].end)
    ensures UpdateDecision(rows, rows[k], req, today, roomIds, userIds).Ok?
  {
    var r := rows[k];
    assert CorrectTimes(req, true) == Ok((req.startTime, req.endTime)) by {
      DistinctTimesAccepted(req);
    }
    assert Rooms.IsAvailable(rows, r.roomId, r.date, r.start, r.end, Some(r.id))
        && Users.CanReserve(rows, r.employeeId, r.date, r.start, r.end, Some(r.id)) by {
      SelfExclusionFrees(rows, k);
    }
    BothChecksRequired(rows, req, true, Some(r.id));
  }

  /** Replacing a row by a sound row with the same id keeps every part of the table invariant. */
  lemma ReplaceKeepsInvariant(rows: seq<Reservation>, k: int, x: Reservation, nextId: int)
    requires AllWellFormed(rows) && NoDoubleBooking(rows) && DistinctIds(rows)
    requires IdsBelow(rows, nextId)
    requires 0 <= k < |rows| && x.id == rows[k].id
    requires WellFormed(x) && !Reservations.HasConflict(rows, x, Some(x.id))
    ensures AllWellFormed(rows[k := x]) && NoDoubleBooking(rows[k := x]) && DistinctIds(rows[k := x])
    ensures IdsBelow(rows[k := x], nextId)
  {
    ReplaceKeepsNoDoubleBooking(rows, k, x);
    var all := rows[k := x];
    assert forall i :: 0 <= i < |rows| && i != k ==> all[i] == rows[i];
  }

  /** The row `update` writes keeps every part of the table invariant, ids below `nextId` included. */
  lemma UpdateKeepsInvariant(rows: seq<Reservation>, k: int, req: BookingRequest, today: int, roomIds: set<int>, userIds: set<int>, nextId: int)
    requires AllWellFormed(rows) && NoDoubleBooking(rows) && DistinctIds(rows)
    requires IdsBelow(rows, nextId)
    requires 0 <= k < |rows|
    requires UpdateDecision(rows, rows[k], req, today, roomIds, userIds).Ok?
    ensures var all := rows[k := UpdatedReservation(rows[k], req, UpdateDecision(rows, rows[k], req, today, roomIds, userIds).value)];
            && AllWellFormed(all) && NoDoubleBooking(all) && DistinctIds(all)
            && IdsBelow(all, nextId)
  {
    var slot := UpdateDecision(rows, rows[k], req, today, roomIds, userIds).value;
    UpdatedRowIsSound(rows, rows[k], req, today, roomIds, userIds);
    ReplaceKeepsInvariant(rows, k, UpdatedReservation(rows[k], req, slot), nextId);
  }

  /** Changing a row in a way the availability queries cannot see keeps the invariant. */
  lemma SlotPreservingUpdateKeepsInvariant(rows: seq<Reservation>, k: int, x: Reservation)
    requires 0 <= k < |rows| && SameSlot(x, rows[k])
    requires AllWellFormed(rows) && NoDoubleBooking(rows) && DistinctIds(rows)
    ensures AllWellFormed(rows[k := x]) && NoDoubleBooking(rows[k := x]) && DistinctIds(rows[k := x])
  {
    var all := rows[k := x];
    assert forall i :: 0 <= i < |rows| ==> SameSlot(all[i], rows[i]);
  }

  /** Deleting a row keeps the invariant. */
  lemma RemoveKeepsInvariant(rows: seq<Reservation>, k: int)
    requires 0 <= k < |rows|
    requires AllWellFormed(rows) && NoDoubleBooking(rows) && DistinctIds(rows)
    ensures var rest := rows[..k] + rows[k + 1..];
            AllWellFormed(rest) && NoDoubleBooking(rest) && DistinctIds(rest)
            && forall r :: r in rest ==> r in rows
  {
    var rest := rows[..k] + rows[k + 1..];
    assert forall i :: 0 <= i < |rest| ==> rest[i] == rows[if i < k then i else i + 1];
  }

  class ReservationTable {
    var rows: seq<Reservation>
    var nextId: int

    /** Ids are positive, distinct and below the next one; slots are sound and never double-booked. */
    ghost predicate Valid()
      reads this
    {
      && 1 <= nextId
      && IdsBelow(rows, nextId)
      && DistinctIds(rows)
      && AllWellFormed(rows)
      && NoDoubleBooking(rows)
    }

    constructor ()
      ensures Valid() && rows == [] && nextId == 1
    {
      rows := [];
      nextId := 1;
    }

    /**
     * `store`: when the decision accepts the request, a `confirmed` row with the next id is
     * appended and its id returned; otherwise the table is left as it was.
     */
    method Store(req: BookingRequest, today: int, roomIds: set<int>, userIds: set<int>) returns (outcome: Result<int, BookingError>)
      requires Valid()
      modifies this
      ensures Valid()
      ensures var decision := StoreDecision(old(rows), req, today, roomIds, userIds);
              && (decision.Err? ==> outcome == Err(decision.error) && rows == old(rows) && nextId == old(nextId))
              && (decision.Ok? ==> && outcome == Ok(old(nextId))
                                   && rows == old(rows) + [NewReservation(old(nextId), req, decision.value)]
                                   && nextId == old(nextId) + 1)
    {
      var decision := StoreDecision(rows, req, today, roomIds, userIds);
      if decision.Err? {
        return Err(decision.error);
      }
      StoreKeepsInvariant(rows, req, today, roomIds, userIds, nextId);
      var row := NewReservation(nextId, req, decision.value);
      rows := rows + [row];
      nextId := nextId + 1;
      return Ok(row.id);
    }

    /**
     * `update`: an unknown id is not found; otherwise the decision runs against the stored
     * row, and on success that row alone is rewritten, keeping its id.
     */
    method Update(id: int, req: BookingRequest, today: int, roomIds: set<int>, userIds: set<int>) returns (outcome: Option<BookingError>)
      requires Valid()
      modifies this
      ensures Valid() && nextId == old(nextId)
      ensures IndexOfId(old(rows), id).None? ==> outcome == Some(NotFound) && rows == old(rows)
      ensures IndexOfId(old(rows), id).Some? ==>
        var k := IndexOfId(old(rows), id).value;
        var decision := UpdateDecision(old(rows), old(rows)[k], req, today, roomIds, userIds);
        && (decision.Err? ==> outcome == Some(decision.error) && rows == old(rows))
        && (decision.Ok? ==> outcome.None? && rows == old(rows)[k := UpdatedReservation(old(rows)[k], req, decision.value)])
    {
      var found := IndexOfId(rows, id);
      if found.None? {
        return Some(NotFound);
      }
      var k := found.value;
      var target := rows[k];
      var decision := UpdateDecision(rows, target, req, today, roomIds, userIds);
      if decision.Err? {
        return Some(decision.error);
      }
      UpdateKeepsInvariant(rows, k, req, today, roomIds, userIds, nextId);
      rows := rows[k := UpdatedReservation(target, req, decision.value)];
      return None;
    }

    /** `cancel`: when the guard allows it, only the status of that row becomes `cancelled`. */
    method Cancel(id: int, today: int) returns (outcome: Option<BookingError>)
      requires Valid()
      modifies this
      ensures Valid() && nextId == old(nextId)
      ensures IndexOfId(old(rows), id).None? ==> outcome == Some(NotFound) && rows == old(rows)
      ensures IndexOfId(old(rows), id).Some? ==>
        var k := IndexOfId(old(rows), id).value;
        && (!Reservations.CanBeCancelled(old(rows)[k], today) ==> outcome == Some(NotCancellable) && rows == old(rows))
        && (Reservations.CanBeCancelled(old(rows)[k], today)
            ==> outcome.None? && rows == old(rows)[k := old(rows)[k].(status := "cancelled")])
    {
      var found := IndexOfId(rows, id);
      if found.None? {
        return Some(NotFound);
      }
      var k := found.value;
      var guard := CancelGuard(rows[k], today);
      if guard.Some? {
        return guard;
      }
      var row := rows[k].(status := "cancelled");
      SlotPreservingUpdateKeepsInvariant(rows, k, row);
      rows := rows[k := row];
      return None;
    }

    /** `destroy`: when the same guard allows it, that row is deleted and the others keep their order. */
    method Destroy(id: int, today: int) returns (outcome: Option<BookingError>)
      requires Valid()
      modifies this
      ensures Valid() && nextId == old(nextId)
      ensures IndexOfId(old(rows), id).None? ==> outcome == Some(NotFound) && rows == old(rows)
      ensures IndexOfId(old(rows), id).Some? ==>
        var k := IndexOfId(old(rows), id).value;
        && (!Reservations.CanBeCancelled(old(rows)[k], today) ==> outcome == Some(NotCancellable) && rows == old(rows))
        && (Reservations.CanBeCancelled(old(rows)[k], today)
            ==> outcome.None? && rows == old(rows)[..k] + old(rows)[k + 1..])
    {
      var found := IndexOfId(rows, id);
      if found.None? {
        return Some(NotFound);
      }
      var k := found.value;
      var guard := CancelGuard(rows[k], today);
      if guard.Some? {
        return guard;
      }
      RemoveKeepsInvariant(rows, k);
      rows := rows[..k] + rows[k + 1..];
      return None;
    }

    /**
     * `setDurationMinutesAttribute`: the value is stored as given; start and end are not
     * recomputed from it, and nothing else changes.
     */
    method SetDurationMinutes(id: int, value: int) returns (found: bool)
      requires Valid()
      modifies this
      ensures Valid() && nextId == old(nextId)
      ensures found <==> IndexOfId(old(rows), id).Some?
      ensures !found ==> rows == old(rows)
      ensures found ==>
        var k := IndexOfId(old(rows), id).value;
        rows == old(rows)[k := old(rows)[k].(durationMinutes := value)]
    {
      var index := IndexOfId(rows, id);
      if index.None? {
        return false;
      }
      var k := index.value;
      var row := rows[k].(durationMinutes := value);
      SlotPreservingUpdateKeepsInvariant(rows, k, row);
      rows := rows[k := row];
      return true;
    }
  }
}
