/** The reservation validation middleware that guards creating (POST) and
    updating (PUT /:id) a reservation.

    It is a chain of early-return guards: a body of the wrong shape is
    answered 400, an unknown guest or room 404, a room already booked for an
    overlapping stay 409, and otherwise the request goes on to the controller.
    The shape check and the two existence lookups are taken as booleans; the
    conflict lookup is the half-open overlap rule over the reservations table. */
module Validation {
  import opened Dates
  import opened Tables
  import opened Wrappers

  /** The fields of a create or update request body that the middleware reads. */
  datatype Booking = Booking(guestId: nat, roomId: nat, checkIn: Date, checkOut: Date)

  /** What the middleware does: answer with a status and error message, or pass the request on. */
  datatype Outcome = Reject(status: int, error: string) | Proceed

  const InvalidData := Reject(400, "Invalid reservation data")
  const GuestMissing := Reject(404, "Guest does not exist")
  const RoomMissing := Reject(404, "Room does not exist")
  const AlreadyBooked := Reject(409, "Room is already booked for the selected dates")

  /** Half-open stays [aIn, aOut) and [bIn, bOut) overlap: each starts before the other ends. */
  predicate IntervalsOverlap(aIn: Date, aOut: Date, bIn: Date, bOut: Date) {
    Before(aIn, bOut) && Before(bIn, aOut)
  }

  /** The conflict query's condition: same room, existing check-in before the requested
      check-out, existing check-out after the requested check-in. Status is not consulted. */
  function Overlaps(existing: Reservation, b: Booking): (r: bool)
    ensures WellDated(existing) && ValidDate(b.checkIn) && ValidDate(b.checkOut) ==>
              (r <==> existing.roomId == b.roomId
                      && Ordinal(existing.checkIn) < Ordinal(b.checkOut)
                      && Ordinal(b.checkIn) < Ordinal(existing.checkOut))
  {
    if WellDated(existing) && ValidDate(b.checkIn) && ValidDate(b.checkOut) then
      OrdinalOrder(existing.checkIn, b.checkOut);
      OrdinalOrder(b.checkIn, existing.checkOut);
      existing.roomId == b.roomId
      && IntervalsOverlap(existing.checkIn, existing.checkOut, b.checkIn, b.checkOut)
    else
      existing.roomId == b.roomId
      && IntervalsOverlap(existing.checkIn, existing.checkOut, b.checkIn, b.checkOut)
  }

  predicate HasConflict(rows: seq<Reservation>, b: Booking) {
    exists e :: e in rows && Overlaps(e, b)
  }

  /** The conflict query with `.first()`: a conflicting row, if there is one. Without an
      `orderBy` the engine may return any conflicting row; the model picks the first in
      table order, and the guard's outcome depends only on whether one exists. */
  function FirstConflict(rows: seq<Reservation>, b: Booking): (r: Option<nat>)
    ensures r.Some? ==> r.value < |rows| && Overlaps(rows[r.value], b)
    ensures r.Some? ==> forall j :: 0 <= j < r.value ==> !Overlaps(rows[j], b)
    ensures r.None? <==> !HasConflict(rows, b)
  {
    if rows == [] then None
    else if Overlaps(rows[0], b) then Some(0)
    else
      assert forall e :: e in rows ==> e == rows[0] || e in rows[1..];
      match FirstConflict(rows[1..], b)
      case None => None
      case Some(k) => Some(k + 1)
  }

  /** The middleware's guard chain. */
  function ValidateReservation(schemaValid: bool, guestExists: bool, roomExists: bool,
                               rows: seq<Reservation>, b: Booking): (r: Outcome)
    ensures !schemaValid ==> r == InvalidData
    ensures schemaValid && !guestExists ==> r == GuestMissing
    ensures schemaValid && guestExists && !roomExists ==> r == RoomMissing
    ensures schemaValid && guestExists && roomExists ==>
              (r == AlreadyBooked <==> HasConflict(rows, b)) && (r == Proceed <==> !HasConflict(rows, b))
  {
    if !schemaValid then InvalidData
    else if !guestExists then GuestMissing
    else if !roomExists then RoomMissing
    else if FirstConflict(rows, b).Some? then AlreadyBooked
    else Proceed
  }

  /** For well-formed stays, overlapping means sharing a night: some calendar day is
      within both half-open stays. */
  lemma OverlapIffSharedNight(aIn: Date, aOut: Date, bIn: Date, bOut: Date)
    requires ValidDate(aIn) && ValidDate(bIn)
    requires Before(aIn, aOut) && Before(bIn, bOut)
    ensures IntervalsOverlap(aIn, aOut, bIn, bOut) <==>
            exists d :: ValidDate(d) && AtMost(aIn, d) && Before(d, aOut) && AtMost(bIn, d) && Before(d, bOut)
  {
    if IntervalsOverlap(aIn, aOut, bIn, bOut) {
      var d := if Before(aIn, bIn) then bIn else aIn;
      assert ValidDate(d) && AtMost(aIn, d) && Before(d, aOut) && AtMost(bIn, d) && Before(d, bOut);
    }
  }

  /** Overlap does not depend on which stay is the stored one. */
  lemma OverlapSymmetric(aIn: Date, aOut: Date, bIn: Date, bOut: Date)
    ensures IntervalsOverlap(aIn, aOut, bIn, bOut) == IntervalsOverlap(bIn, bOut, aIn, aOut)
  {
  }

  /** Back-to-back stays never conflict: the checkout day is free for a new check-in. */
  lemma BackToBackNeverOverlaps(e: Reservation, b: Booking)
    requires e.checkOut == b.checkIn || e.checkIn == b.checkOut
    ensures !Overlaps(e, b)
  {
  }

  /** A table whose same-room rows all end by the requested check-in or start on or
      after the requested check-out lets the request through. */
  lemma BackToBackTableProceeds(rows: seq<Reservation>, b: Booking)
    requires forall e :: e in rows && e.roomId == b.roomId ==>
               AtMost(e.checkOut, b.checkIn) || AtMost(b.checkOut, e.checkIn)
    ensures ValidateReservation(true, true, true, rows, b) == Proceed
  {
    forall e | e in rows
      ensures !Overlaps(e, b)
    {
    }
  }

  /** Rows of other rooms never cause a conflict, whatever their dates. */
  lemma {:induction false} OtherRoomsIrrelevant(rows: seq<Reservation>, others: seq<Reservation>,
                                                schemaValid: bool, guestExists: bool, roomExists: bool,
                                                b: Booking)
    requires forall e :: e in others ==> e.roomId != b.roomId
    ensures ValidateReservation(schemaValid, guestExists, roomExists, rows + others, b)
         == ValidateReservation(schemaValid, guestExists, roomExists, rows, b)
  {
    assert forall e :: e in rows + others <==> e in rows || e in others;
  }

  /** Status is not consulted: cancelling (or reactivating) a stored row changes no outcome,
      so a canceled reservation still blocks its room. */
  lemma StatusIgnored(rows: seq<Reservation>, i: nat, st: Status,
                      schemaValid: bool, guestExists: bool, roomExists: bool, b: Booking)
    requires i < |rows|
    ensures ValidateReservation(schemaValid, guestExists, roomExists, rows[i := rows[i].(status := st)], b)
         == ValidateReservation(schemaValid, guestExists, roomExists, rows, b)
  {
    var rows' := rows[i := rows[i].(status := st)];
    if HasConflict(rows, b) {
      var e :| e in rows && Overlaps(e, b);
      var j :| 0 <= j < |rows| && rows[j] == e;
      assert Overlaps(rows'[j], b);
    }
    if HasConflict(rows', b) {
      var e :| e in rows' && Overlaps(e, b);
      var j :| 0 <= j < |rows'| && rows'[j] == e;
      assert Overlaps(rows[j], b);
    }
  }

  /** The repository's test: room 1 booked 2025-01-01..2025-01-07; a request for room 1,
      2025-01-05..2025-01-10, is answered 409. */
  lemma DoubleBookingAnswered409()
    ensures ValidateReservation(true, true, true,
              [Reservation(1, 1, 1, Date(2025, 1, 1), Date(2025, 1, 7), Active)],
              Booking(2, 1, Date(2025, 1, 5), Date(2025, 1, 10))).status == 409
  {
    var e := Reservation(1, 1, 1, Date(2025, 1, 1), Date(2025, 1, 7), Active);
    assert Overlaps(e, Booking(2, 1, Date(2025, 1, 5), Date(2025, 1, 10)));
  }

  // ---------------------------------------------------------------------------
  // Updates. PUT /:id runs the same middleware, so the row being updated is in
  // the table the conflict query reads.

  /** As written: an update whose new dates overlap the reservation's own current
      dates is refused, even when no other reservation is in the way. */
  lemma UpdateConflictsWithItself(rows: seq<Reservation>, i: nat, b: Booking)
    requires i < |rows| && rows[i].roomId == b.roomId
    requires IntervalsOverlap(rows[i].checkIn, rows[i].checkOut, b.checkIn, b.checkOut)
    ensures ValidateReservation(true, true, true, rows, b) == AlreadyBooked
  {
    assert Overlaps(rows[i], b);
  }

  /** The rows other than reservation `id`. */
  function WithoutId(rows: seq<Reservation>, id: nat): (r: seq<Reservation>)
    ensures forall e :: e in r <==> e in rows && e.id != id
  {
    if rows == [] then []
    else if rows[0].id == id then WithoutId(rows[1..], id)
    else [rows[0]] + WithoutId(rows[1..], id)
  }

  /** Corrected update check: the reservation being updated does not conflict with itself. */
  function ValidateUpdate(schemaValid: bool, guestExists: bool, roomExists: bool,
                          rows: seq<Reservation>, id: nat, b: Booking): (r: Outcome)
    ensures !schemaValid ==> r == InvalidData
    ensures schemaValid && !guestExists ==> r == GuestMissing
    ensures schemaValid && guestExists && !roomExists ==> r == RoomMissing
    ensures schemaValid && guestExists && roomExists ==>
              (r == AlreadyBooked <==> exists e :: e in rows && e.id != id && Overlaps(e, b))
              && (r == Proceed <==> forall e :: e in rows && e.id != id ==> !Overlaps(e, b))
  {
    ValidateReservation(schemaValid, guestExists, roomExists, WithoutId(rows, id), b)
  }

  /** Corrected: re-submitting a reservation unchanged, with no other booking in its
      room at those dates, goes through. */
  lemma UnchangedUpdateProceeds(rows: seq<Reservation>, i: nat)
    requires i < |rows|
    requires forall e :: e in rows && e.id != rows[i].id ==>
               !Overlaps(e, Booking(rows[i].guestId, rows[i].roomId, rows[i].checkIn, rows[i].checkOut))
    ensures ValidateUpdate(true, true, true, rows, rows[i].id,
              Booking(rows[i].guestId, rows[i].roomId, rows[i].checkIn, rows[i].checkOut)) == Proceed
  {
  }
}
