/**
 * The punch ledger: the `TimeRecords` table as a sequence of rows, the users
 * table, and the AUTO_INCREMENT counter. Instants are whole seconds; a row is open
 * while its `clock_out` is NULL.
 */
module Ledger {
  import opened Wrappers
  import Accounts

  datatype Row = Row(id: nat, username: string, clockIn: int, clockOut: Option<int>, durationMs: Option<int>)

  datatype Store = Store(users: seq<Accounts.User>, rows: seq<Row>, nextId: nat)

  /** The row is `u`'s open record. */
  predicate OpenFor(r: Row, u: string)
  {
    r.username == u && r.clockOut.None?
  }

  /** State Open of the per-user machine; its negation is state Closed. */
  predicate HasOpen(rows: seq<Row>, u: string)
  {
    exists i :: 0 <= i < |rows| && OpenFor(rows[i], u)
  }

  /** A row is either open with no duration, or closed no earlier than it opened with the exact duration. */
  predicate Consistent(r: Row)
  {
    match r.clockOut
    case None => r.durationMs.None?
    case Some(out) => out >= r.clockIn && r.durationMs == Some((out - r.clockIn) * 1000)
  }

  predicate UniqueIds(rows: seq<Row>)
  {
    forall i, j :: 0 <= i < j < |rows| ==> rows[i].id != rows[j].id
  }

  /** At most one open row per user. */
  predicate AtMostOneOpen(rows: seq<Row>)
  {
    forall i, j :: 0 <= i < j < |rows| && rows[i].clockOut.None? && rows[j].clockOut.None?
                   ==> rows[i].username != rows[j].username
  }

  /** The ledger invariant every punch operation keeps. */
  predicate Valid(s: Store)
  {
    && UniqueIds(s.rows)
    && (forall i :: 0 <= i < |s.rows| ==> s.rows[i].id < s.nextId)
    && AtMostOneOpen(s.rows)
    && (forall i :: 0 <= i < |s.rows| ==> Consistent(s.rows[i]))
  }

  /**
   * `SELECT ... WHERE username = ? AND clock_out IS NULL ORDER BY clock_in DESC LIMIT 1`:
   * the user's open row with the latest `clock_in` (the earliest in store order on a tie).
   */
  function LatestOpen(rows: seq<Row>, u: string): (r: Option<Row>)
    ensures r.None? <==> !HasOpen(rows, u)
    ensures r.Some? ==> r.value in rows && OpenFor(r.value, u)
    ensures r.Some? ==> forall i :: 0 <= i < |rows| && OpenFor(rows[i], u) ==> rows[i].clockIn <= r.value.clockIn
  {
    if |rows| == 0 then None
    else
      var rest := LatestOpen(rows[1..], u);
      assert forall i :: 1 <= i < |rows| ==> rows[i] == rows[1..][i - 1];
      if OpenFor(rows[0], u) && (rest.None? || rest.value.clockIn <= rows[0].clockIn) then Some(rows[0])
      else rest
  }

  /** Under the invariant the open row of a user is unique, so the lookup returns exactly it. */
  lemma LatestOpenIsTheOpenRow(rows: seq<Row>, u: string, i: nat)
    requires AtMostOneOpen(rows)
    requires i < |rows| && OpenFor(rows[i], u)
    ensures LatestOpen(rows, u) == Some(rows[i])
  {
    var r := LatestOpen(rows, u);
    var j :| 0 <= j < |rows| && rows[j] == r.value;
    if j != i {
      assert false;
    }
  }
}
