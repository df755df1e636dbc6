/** A guest with the number of their past reservations: reservations of the
    guest whose check-out date, taken as its midnight, is before the current
    timestamp `now`, which is a parameter. */
module GuestService {
  import opened Dates
  import opened Tables
  import opened Wrappers
  import RoomsService

  /** `check_out_date < now()`: the midnight that starts the check-out day is earlier
      than the current timestamp. A stay checking out today is past as soon as the
      day has begun. */
  function IsPast(r: Reservation, now: Instant): (b: bool)
    ensures now.sinceMidnight == 0 ==> (b <==> Before(r.checkOut, now.day))
    ensures now.sinceMidnight > 0 ==> (b <==> AtMost(r.checkOut, now.day))
  {
    InstantBefore(Midnight(r.checkOut), now)
  }

  /** The count query's condition. Status is not consulted. */
  predicate PastForGuest(r: Reservation, guestId: nat, now: Instant) {
    r.guestId == guestId && IsPast(r, now)
  }

  /** `count('* as total')` over the guest's past rows. */
  function PastReservationCount(rows: seq<Reservation>, guestId: nat, now: Instant): (n: nat)
    ensures n <= |rows|
    ensures n == 0 <==> forall x :: x in rows ==> !PastForGuest(x, guestId, now)
    ensures n == |rows| <==> forall x :: x in rows ==> PastForGuest(x, guestId, now)
  {
    if rows == [] then 0
    else
      assert forall x :: x in rows <==> x == rows[0] || x in rows[1..];
      (if PastForGuest(rows[0], guestId, now) then 1 else 0) + PastReservationCount(rows[1..], guestId, now)
  }

  /** `totalReservations?.total || 0`: a missing count, or a zero one, reads as 0. */
  function TotalOrZero(total: Option<nat>): (n: nat)
    ensures total.None? ==> n == 0
    ensures total.Some? ==> n == total.value
  {
    if total.Some? && total.value != 0 then total.value else 0
  }

  /** The response `{ ...guest, totalPastReservations }`. */
  datatype GuestDetails = GuestDetails(guest: Option<Guest>, totalPastReservations: nat)

  function GuestById(guests: seq<Guest>, rows: seq<Reservation>, guestId: nat, now: Instant)
      : (r: GuestDetails)
    ensures r.guest.Some? ==> r.guest.value in guests && r.guest.value.id == guestId
    ensures r.guest.None? <==> forall x :: x in guests ==> x.id != guestId
    ensures r.totalPastReservations == PastReservationCount(rows, guestId, now)
    ensures r.totalPastReservations <= |rows|
    ensures r.totalPastReservations == 0 <==> forall x :: x in rows ==> !PastForGuest(x, guestId, now)
  {
    GuestDetails(FindById(guests, (x: Guest) => x.id, guestId), TotalOrZero(Some(PastReservationCount(rows, guestId, now))))
  }

  /** At the same timestamp, every reservation is exactly one of past (for the guest
      count) and upcoming (for the room listing). */
  lemma PastXorUpcoming(r: Reservation, now: Instant)
    ensures IsPast(r, now) <==> !RoomsService.IsUpcoming(r, now)
  {
  }

  /** Over the reservations of one guest in one room, the past count and the upcoming
      listing together account for every row exactly once. */
  lemma {:induction false} PastAndUpcomingPartition(rows: seq<Reservation>, guestId: nat,
                                                    roomId: nat, now: Instant)
    requires forall x :: x in rows ==> x.guestId == guestId && x.roomId == roomId
    ensures PastReservationCount(rows, guestId, now) + |RoomsService.UpcomingOf(rows, roomId, now)| == |rows|
  {
    if rows != [] {
      assert forall x :: x in rows[1..] ==> x in rows;
      PastAndUpcomingPartition(rows[1..], guestId, roomId, now);
      PastXorUpcoming(rows[0], now);
    }
  }

  /** Status is not consulted: marking a row `canceled` leaves the past count unchanged,
      so a canceled stay that ended counts exactly like an active one. (Deleting a row,
      as `cancelReservation` does, is another matter.) */
  lemma {:induction false} CanceledCountsAsPast(rows: seq<Reservation>, i: nat, guestId: nat, now: Instant)
    requires i < |rows|
    ensures PastReservationCount(rows[i := rows[i].(status := Canceled)], guestId, now)
         == PastReservationCount(rows, guestId, now)
  {
    if i > 0 {
      assert rows[i := rows[i].(status := Canceled)][1..] == rows[1..][i - 1 := rows[i].(status := Canceled)];
      CanceledCountsAsPast(rows[1..], i - 1, guestId, now);
    } else {
      assert rows[i := rows[i].(status := Canceled)][1..] == rows[1..];
    }
  }
}
