/** A room with its upcoming reservations: the room's row, plus the
    reservations of that room whose check-out date, taken as its midnight, is not
    before the current timestamp `now`, in ascending order of check-in. The current
    timestamp is a parameter. */
module RoomsService {
  import opened Dates
  import opened Tables
  import opened Wrappers

  /** `check_out_date >= now()`: the date column is compared with the current
      timestamp, as the midnight that starts the check-out day. A stay checking out
      today is upcoming only at the very start of the day. */
  function IsUpcoming(r: Reservation, now: Instant): (b: bool)
    ensures now.sinceMidnight == 0 ==> (b <==> AtMost(now.day, r.checkOut))
    ensures now.sinceMidnight > 0 ==> (b <==> Before(now.day, r.checkOut))
  {
    !InstantBefore(Midnight(r.checkOut), now)
  }

  /** The query's condition: the room's rows that are upcoming. Status is not consulted. */
  predicate UpcomingForRoom(r: Reservation, roomId: nat, now: Instant) {
    r.roomId == roomId && IsUpcoming(r, now)
  }

  /** The rows the query selects, in table order. */
  function UpcomingOf(rows: seq<Reservation>, roomId: nat, now: Instant): (sel: seq<Reservation>)
    ensures forall x :: multiset(sel)[x] == if UpcomingForRoom(x, roomId, now) then multiset(rows)[x] else 0
  {
    if rows == [] then []
    else
      assert rows == [rows[0]] + rows[1..];
      (if UpcomingForRoom(rows[0], roomId, now) then [rows[0]] else []) + UpcomingOf(rows[1..], roomId, now)
  }

  predicate SortedByCheckIn(s: seq<Reservation>) {
    forall i, j :: 0 <= i < j < |s| ==> AtMost(s[i].checkIn, s[j].checkIn)
  }

  function InsertByCheckIn(x: Reservation, s: seq<Reservation>): (r: seq<Reservation>)
    requires SortedByCheckIn(s)
    ensures SortedByCheckIn(r)
    ensures multiset(r) == multiset(s) + multiset{x}
    ensures r[0] == x || r[0] == s[0]
  {
    if s == [] then [x]
    else if Before(x.checkIn, s[0].checkIn) then [x] + s
    else
      assert s == [s[0]] + s[1..];
      var rest := InsertByCheckIn(x, s[1..]);
      assert AtMost(s[0].checkIn, rest[0].checkIn);
      SortedCons(s[0], rest);
      [s[0]] + rest
  }

  /** A row no later than the head of a sorted listing can go in front of it. */
  lemma SortedCons(h: Reservation, t: seq<Reservation>)
    requires SortedByCheckIn(t)
    requires |t| > 0 ==> AtMost(h.checkIn, t[0].checkIn)
    ensures SortedByCheckIn([h] + t)
  {
    var u := [h] + t;
    forall i, j | 0 <= i < j < |u|
      ensures AtMost(u[i].checkIn, u[j].checkIn)
    {
      if i == 0 && j > 1 {
        AtMostTransitive(h.checkIn, t[0].checkIn, t[j - 1].checkIn);
      }
    }
  }

  /** `.orderBy('check_in_date', 'asc')`: ascending check-in; rows with equal check-in
      keep their table order. */
  function SortByCheckIn(s: seq<Reservation>): (r: seq<Reservation>)
    ensures SortedByCheckIn(r)
    ensures multiset(r) == multiset(s)
  {
    if s == [] then []
    else
      assert s == s[..|s| - 1] + [s[|s| - 1]];
      InsertByCheckIn(s[|s| - 1], SortByCheckIn(s[..|s| - 1]))
  }

  /** Two rows with the same check-in keep their table order. */
  lemma TiesKeepTableOrder(a: Reservation, b: Reservation)
    requires a.checkIn == b.checkIn
    ensures SortByCheckIn([a, b]) == [a, b]
  {
    assert [a, b][..1] == [a];
    assert SortByCheckIn([a]) == [a];
  }

  /** The response `{ ...room, reservations }`: the room's fields, when the room exists,
      and the sorted upcoming reservations. */
  datatype RoomDetails = RoomDetails(room: Option<Room>, reservations: seq<Reservation>)

  function RoomWithReservations(rooms: seq<Room>, rows: seq<Reservation>, roomId: nat, now: Instant)
      : (r: RoomDetails)
    ensures r.room.Some? ==> r.room.value in rooms && r.room.value.id == roomId
    ensures r.room.None? <==> forall x :: x in rooms ==> x.id != roomId
    ensures SortedByCheckIn(r.reservations)
    ensures forall x :: multiset(r.reservations)[x] ==
              if UpcomingForRoom(x, roomId, now) then multiset(rows)[x] else 0
  {
    RoomDetails(FindById(rooms, (x: Room) => x.id, roomId), SortByCheckIn(UpcomingOf(rows, roomId, now)))
  }
}
