/** Pagination shared by the three list endpoints: each service computes
    `offset = (page - 1) * limit` and asks storage for `limit` rows from that
    offset of the table in the requested order. */
module Paging {

  function Min(a: int, b: int): int {
    if a < b then a else b
  }

  /** Index of the first row of a page; pages are numbered from 1. */
  function Offset(page: int, limit: int): (r: int)
    ensures page >= 1 && limit >= 0 ==> r >= 0
    ensures page == 1 ==> r == 0
  {
    (page - 1) * limit
  }

  /** Each page starts exactly `limit` rows after the previous one. */
  lemma OffsetStep(page: int, limit: int)
    ensures Offset(page + 1, limit) == Offset(page, limit) + limit
  {
    assert page * limit == (page - 1) * limit + limit;
  }

  /** `.limit(limit).offset(offset)` applied to a table already in the requested order. */
  function Page<T>(rows: seq<T>, page: int, limit: int): (r: seq<T>)
    requires page >= 1 && limit >= 0
    ensures |r| == Min(limit, if Offset(page, limit) < |rows| then |rows| - Offset(page, limit) else 0)
    ensures forall i :: 0 <= i < |r| ==> r[i] == rows[Offset(page, limit) + i]
  {
    var lo := Min(Offset(page, limit), |rows|);
    rows[lo..Min(lo + limit, |rows|)]
  }

  /** The first `n` pages, in order, are the first `n * limit` rows of the table:
      pages neither overlap nor skip rows. */
  lemma {:induction false} FirstPagesArePrefix<T>(rows: seq<T>, n: nat, limit: nat)
    ensures FirstPages(rows, n, limit) == rows[..Min(Offset(n + 1, limit), |rows|)]
  {
    if n > 0 {
      FirstPagesArePrefix(rows, n - 1, limit);
      OffsetStep(n, limit);
      var lo := Min(Offset(n, limit), |rows|);
      var hi := Min(Offset(n + 1, limit), |rows|);
      assert rows[..lo] + rows[lo..hi] == rows[..hi];
    }
  }

  /** Pages 1..n concatenated. */
  function FirstPages<T>(rows: seq<T>, n: nat, limit: nat): seq<T> {
    if n == 0 then [] else FirstPages(rows, n - 1, limit) + Page(rows, n, limit)
  }
}
