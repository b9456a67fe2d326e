/** `App\Models\Room`: the room types and the room availability query. */
module Rooms {
  import opened Base
  import opened Schedule

  /** `Room::TYPES`: the known room types and their labels. */
  const TYPES: map<string, string> :=
    map["conference" := "Salle de conférence", "office" := "Bureau", "training" := "Salle de formation"]

  /** `getTypeNameAttribute`: the label of a known type, the raw type otherwise. */
  function TypeName(roomType: string): (r: string)
    ensures roomType in TYPES ==> r == TYPES[roomType] && r != roomType
    ensures roomType !in TYPES ==> r == roomType
  {
    if roomType in TYPES then TYPES[roomType] else roomType
  }

  /** Distinct known types have distinct labels, so a label names its type. */
  lemma TypeNamesDistinct(t1: string, t2: string)
    requires t1 in TYPES && t2 in TYPES && t1 != t2
    ensures TypeName(t1) != TypeName(t2)
  {
  }

  /** `$room->reservations()`: the rows whose `room_id` is this room. */
  function OfRoom(rows: seq<Reservation>, roomId: int): (rs: seq<Reservation>)
    ensures |rs| <= |rows|
    ensures forall r :: r in rs <==> r in rows && r.roomId == roomId
  {
    if rows == [] then []
    else (if rows[0].roomId == roomId then [rows[0]] else []) + OfRoom(rows[1..], roomId)
  }

  /**
   * `isAvailable($date, $startTime, $endTime, $excludeReservationId)`: no row of this room on
   * this date, other than the excluded one, falls under one of the three clash cases. The
   * status column is not read.
   */
  predicate IsAvailable(rows: seq<Reservation>, roomId: int, date: int, s: int, e: int, exclude: Option<int>)
  {
    CountClashes(OfRoom(rows, roomId), date, s, e, exclude) == 0
  }

  /** The query, row by row: the room is free iff no row of it clashes. */
  lemma IsAvailableIff(rows: seq<Reservation>, roomId: int, date: int, s: int, e: int, exclude: Option<int>)
    ensures IsAvailable(rows, roomId, date, s, e, exclude)
        <==> forall i :: 0 <= i < |rows| ==> !(rows[i].roomId == roomId && Clashes(rows[i], date, s, e, exclude))
  {
    var rs := OfRoom(rows, roomId);
    if IsAvailable(rows, roomId, date, s, e, exclude) {
      forall i | 0 <= i < |rows| && rows[i].roomId == roomId
        ensures !Clashes(rows[i], date, s, e, exclude)
      {
        assert rows[i] in rs;
        var j :| 0 <= j < |rs| && rs[j] == rows[i];
      }
    } else {
      var j :| 0 <= j < |rs| && Clashes(rs[j], date, s, e, exclude);
      assert rs[j] in rows;
      var i :| 0 <= i < |rows| && rows[i] == rs[j];
    }
  }

  /**
   * With every stored slot non-empty and a non-empty candidate, the room is free iff no
   * half-open slot of it on that date, other than the excluded one, meets `[s, e)`.
   */
  lemma AvailableIffNoOverlap(rows: seq<Reservation>, roomId: int, date: int, s: int, e: int, exclude: Option<int>)
    requires forall i :: 0 <= i < |rows| ==> rows[i].start < rows[i].end
    requires s < e
    ensures IsAvailable(rows, roomId, date, s, e, exclude)
        <==> forall i :: 0 <= i < |rows| && rows[i].roomId == roomId && rows[i].date == date
                         && !Excludes(exclude, rows[i].id)
                         ==> !HalfOpenOverlap(rows[i].start, rows[i].end, s, e)
  {
    IsAvailableIff(rows, roomId, date, s, e, exclude);
  }

  /** Adding a row that does not clash with the asked slot of this room leaves the answer unchanged. */
  lemma AddingNonClashingRow(rows: seq<Reservation>, x: Reservation, roomId: int, date: int, s: int, e: int, exclude: Option<int>)
    requires !(x.roomId == roomId && Clashes(x, date, s, e, exclude))
    ensures IsAvailable(rows + [x], roomId, date, s, e, exclude) == IsAvailable(rows, roomId, date, s, e, exclude)
  {
    IsAvailableIff(rows + [x], roomId, date, s, e, exclude);
    IsAvailableIff(rows, roomId, date, s, e, exclude);
    assert forall i :: 0 <= i < |rows| ==> (rows + [x])[i] == rows[i];
    assert (rows + [x])[|rows|] == x;
  }

  /**
   * A booked slot never blocks the slot that starts when it ends: adding the booking to any
   * table leaves the answer for that slot unchanged.
   */
  lemma BackToBackIsFree(rows: seq<Reservation>, r: Reservation, length: int, exclude: Option<int>)
    requires r.start < r.end && length > 0
    ensures IsAvailable(rows + [r], r.roomId, r.date, r.end, r.end + length, exclude)
         == IsAvailable(rows, r.roomId, r.date, r.end, r.end + length, exclude)
  {
    BackToBackSlotsDoNotClash(r, length, exclude);
    AddingNonClashingRow(rows, r, r.roomId, r.date, r.end, r.end + length, exclude);
  }

  /** Nor does it block the slot that ends when it starts. */
  lemma SlotEndingAtStartIsFree(rows: seq<Reservation>, r: Reservation, length: int, exclude: Option<int>)
    requires r.start < r.end && length > 0
    ensures IsAvailable(rows + [r], r.roomId, r.date, r.start - length, r.start, exclude)
         == IsAvailable(rows, r.roomId, r.date, r.start - length, r.start, exclude)
  {
    BackToBackSlotsDoNotClash(r, length, exclude);
    AddingNonClashingRow(rows, r, r.roomId, r.date, r.start - length, r.start, exclude);
  }

  /** The booked row itself does not clash with either neighbouring slot. */
  lemma BackToBackSlotsDoNotClash(r: Reservation, length: int, exclude: Option<int>)
    requires r.start < r.end && length > 0
    ensures !Clashes(r, r.date, r.end, r.end + length, exclude)
    ensures !Clashes(r, r.date, r.start - length, r.start, exclude)
  {
  }

  /** Asking for exactly a booked slot finds the room taken, unless that row is excluded. */
  lemma IdenticalSlotConflicts(rows: seq<Reservation>, k: int, exclude: Option<int>)
    requires 0 <= k < |rows| && rows[k].start < rows[k].end
    ensures IsAvailable(rows, rows[k].roomId, rows[k].date, rows[k].start, rows[k].end, exclude)
        ==> Excludes(exclude, rows[k].id)
  {
    IsAvailableIff(rows, rows[k].roomId, rows[k].date, rows[k].start, rows[k].end, exclude);
  }

  /** The query reads only id, room, date and times: status, duration and notes do not matter. */
  lemma OnlySlotsMatter(rows1: seq<Reservation>, rows2: seq<Reservation>, roomId: int, date: int, s: int, e: int, exclude: Option<int>)
    requires |rows1| == |rows2|
    requires forall i :: 0 <= i < |rows1| ==> SameSlot(rows1[i], rows2[i])
    ensures IsAvailable(rows1, roomId, date, s, e, exclude) == IsAvailable(rows2, roomId, date, s, e, exclude)
  {
    IsAvailableIff(rows1, roomId, date, s, e, exclude);
    IsAvailableIff(rows2, roomId, date, s, e, exclude);
  }

  /** A cancelled reservation keeps its slot taken. */
  lemma CancelledStillBlocks(rows: seq<Reservation>, k: int, roomId: int, date: int, s: int, e: int, exclude: Option<int>)
    requires 0 <= k < |rows|
    ensures IsAvailable(rows[k := rows[k].(status := "cancelled")], roomId, date, s, e, exclude)
        == IsAvailable(rows, roomId, date, s, e, exclude)
  {
    OnlySlotsMatter(rows[k := rows[k].(status := "cancelled")], rows, roomId, date, s, e, exclude);
  }

  /** A reservation of another room or on another date never changes the answer. */
  lemma OtherRoomOrDateIgnored(rows: seq<Reservation>, x: Reservation, roomId: int, date: int, s: int, e: int, exclude: Option<int>)
    requires x.roomId != roomId || x.date != date
    ensures IsAvailable(rows + [x], roomId, date, s, e, exclude) == IsAvailable(rows, roomId, date, s, e, exclude)
  {
    IsAvailableIff(rows + [x], roomId, date, s, e, exclude);
    IsAvailableIff(rows, roomId, date, s, e, exclude);
    assert forall i :: 0 <= i < |rows| ==> (rows + [x])[i] == rows[i];
  }

  /** Adding a reservation can only turn "available" into "unavailable". */
  lemma AddingOnlyTakesAway(rows: seq<Reservation>, x: Reservation, roomId: int, date: int, s: int, e: int, exclude: Option<int>)
    ensures IsAvailable(rows + [x], roomId, date, s, e, exclude) ==> IsAvailable(rows, roomId, date, s, e, exclude)
  {
    IsAvailableIff(rows + [x], roomId, date, s, e, exclude);
    IsAvailableIff(rows, roomId, date, s, e, exclude);
    assert forall i :: 0 <= i < |rows| ==> (rows + [x])[i] == rows[i];
  }

  /** Excluding an id can only turn "unavailable" into "available". */
  lemma ExcludingOnlyFrees(rows: seq<Reservation>, roomId: int, date: int, s: int, e: int, exclude: Option<int>)
    ensures IsAvailable(rows, roomId, date, s, e, None) ==> IsAvailable(rows, roomId, date, s, e, exclude)
  {
    IsAvailableIff(rows, roomId, date, s, e, None);
    IsAvailableIff(rows, roomId, date, s, e, exclude);
  }
}
