/** The three tables of the hotel database, as rows. The database itself is a
    sequence of rows per table; auto-increment ids and timestamps are values
    the rows already carry. */
module Tables {
  import opened Dates
  import opened Wrappers

  /** `status` is a short string column whose values are `active` and `canceled`. */
  datatype Status = Active | Canceled

  datatype Reservation = Reservation(
    id: nat,
    roomId: nat,
    guestId: nat,
    checkIn: Date,
    checkOut: Date,
    status: Status)

  datatype Room = Room(id: nat, number: string, name: string)

  datatype Guest = Guest(id: nat, name: string, email: string, phoneNumber: string)

  /** `check_in_date` and `check_out_date` are date columns: both hold real calendar days.
      Nothing orders them: a row may check out before it checks in. */
  predicate WellDated(r: Reservation) {
    ValidDate(r.checkIn) && ValidDate(r.checkOut)
  }

  predicate AllWellDated(rows: seq<Reservation>) {
    forall i :: 0 <= i < |rows| ==> WellDated(rows[i])
  }

  /** `.where({ id }).first()` on a table keyed by `id`: the first row with that key.
      The key is a parameter, so the rooms and the guests tables share this lookup. */
  function FindById<T>(rows: seq<T>, id: T -> nat, wanted: nat): (r: Option<T>)
    ensures r.Some? ==> r.value in rows && id(r.value) == wanted
    ensures r.None? <==> forall x :: x in rows ==> id(x) != wanted
    ensures r.Some? ==> exists i :: 0 <= i < |rows| && rows[i] == r.value && NoneBefore(rows, id, wanted, i)
  {
    if rows == [] then None
    else if id(rows[0]) == wanted then Some(rows[0])
    else
      assert forall x :: x in rows ==> x == rows[0] || x in rows[1..];
      var r := FindById(rows[1..], id, wanted);
      assert r.Some? ==> exists i :: 0 <= i < |rows| && rows[i] == r.value && NoneBefore(rows, id, wanted, i) by {
        if r.Some? {
          var i :| 0 <= i < |rows| - 1 && rows[1..][i] == r.value && NoneBefore(rows[1..], id, wanted, i);
          assert rows[i + 1] == r.value && NoneBefore(rows, id, wanted, i + 1);
        }
      }
      r
  }

  /** No row before position `i` has the key. */
  predicate NoneBefore<T>(rows: seq<T>, id: T -> nat, wanted: nat, i: nat)
    requires i <= |rows|
  {
    forall j :: 0 <= j < i ==> id(rows[j]) != wanted
  }
}
