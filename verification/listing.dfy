/**
 * back/api/time_records/list.php: a user's open record and their closed records,
 * newest `clock_in` first, at most 500. The endpoint only reads: `List` takes the
 * store and returns a reply, nothing else.
 */
module Listing {
  import opened Wrappers
  import opened Text
  import Accounts
  import opened Ledger
  import Ordering
  import Punch

  /** `LIMIT 500` of the closed-record query. */
  const MaxRecords: nat := 500

  datatype Reply =
    | Fail
    | InvalidToken
    | Ok(openRecord: Option<Row>, records: seq<Row>)

  function ClockIn(r: Row): int
  {
    r.clockIn
  }

  /** The row is `u`'s and closed: `username = ? AND clock_out IS NOT NULL`. */
  predicate ClosedRowOf(x: Row, u: string)
  {
    x.username == u && x.clockOut.Some?
  }

  /** `WHERE username = ? AND clock_out IS NOT NULL`, in store order. */
  function ClosedOf(rows: seq<Row>, u: string): (r: seq<Row>)
    ensures forall i :: 0 <= i < |r| ==> r[i].username == u && r[i].clockOut.Some?
    ensures forall i :: 0 <= i < |r| ==> r[i] in rows
    ensures forall i :: 0 <= i < |rows| && rows[i].username == u && rows[i].clockOut.Some? ==> rows[i] in r
    ensures forall x :: multiset(r)[x] == if x.username == u && x.clockOut.Some? then multiset(rows)[x] else 0
  {
    if |rows| == 0 then []
    else
      var rest := ClosedOf(rows[1..], u);
      var r := if ClosedRowOf(rows[0], u) then [rows[0]] + rest else rest;
      ClosedOfStep(rows, u, rest, r);
      r
  }

  /** One step of the filter: keeping or dropping the first row keeps the multiset exact. */
  lemma ClosedOfStep(rows: seq<Row>, u: string, rest: seq<Row>, r: seq<Row>)
    requires |rows| > 0
    requires forall x :: multiset(rest)[x] == if ClosedRowOf(x, u) then multiset(rows[1..])[x] else 0
    requires r == if ClosedRowOf(rows[0], u) then [rows[0]] + rest else rest
    ensures forall x :: multiset(r)[x] == if ClosedRowOf(x, u) then multiset(rows)[x] else 0
    ensures forall i :: 0 <= i < |r| ==> ClosedRowOf(r[i], u) && r[i] in rows
    ensures forall i :: 0 <= i < |rows| && ClosedRowOf(rows[i], u) ==> rows[i] in r
  {
    assert rows == [rows[0]] + rows[1..];
    assert multiset(rows) == multiset{rows[0]} + multiset(rows[1..]);
    forall i | 0 <= i < |r|
      ensures ClosedRowOf(r[i], u) && r[i] in rows
    {
      assert multiset(r)[r[i]] > 0;
    }
    forall i | 0 <= i < |rows| && ClosedRowOf(rows[i], u)
      ensures rows[i] in r
    {
      assert multiset(rows)[rows[i]] > 0;
    }
  }

  /** The closed-record query: filter, `ORDER BY clock_in DESC`, `LIMIT 500`. */
  function ClosedRecords(rows: seq<Row>, u: string): (r: seq<Row>)
    ensures |r| == if |ClosedOf(rows, u)| <= MaxRecords then |ClosedOf(rows, u)| else MaxRecords
    ensures Ordering.SortedDesc(r, ClockIn)
    ensures multiset(r) <= multiset(ClosedOf(rows, u))
  {
    var sorted := Ordering.SortDesc(ClosedOf(rows, u), ClockIn);
    Ordering.TakeKeepsLargest(sorted, MaxRecords, ClockIn);
    Ordering.Take(sorted, MaxRecords)
  }

  /**
   * The listed records are the user's own closed rows, and when more than 500
   * exist they are the ones with the latest `clock_in`.
   */
  lemma ClosedRecordsAreLatest(rows: seq<Row>, u: string)
    ensures forall i :: 0 <= i < |ClosedRecords(rows, u)| ==>
              var x := ClosedRecords(rows, u)[i]; x.username == u && x.clockOut.Some? && x in rows
    ensures forall x, y :: x in multiset(ClosedRecords(rows, u))
                           && y in multiset(ClosedOf(rows, u)) - multiset(ClosedRecords(rows, u))
                           ==> x.clockIn >= y.clockIn
  {
    var closed := ClosedOf(rows, u);
    var sorted := Ordering.SortDesc(closed, ClockIn);
    var r := ClosedRecords(rows, u);
    Ordering.TakeKeepsLargest(sorted, MaxRecords, ClockIn);
    forall i | 0 <= i < |r|
      ensures r[i].username == u && r[i].clockOut.Some? && r[i] in rows
    {
      assert r[i] in multiset(r);
      assert r[i] in multiset(closed);
    }
  }

  /** list.php after the method and connection checks. */
  function List(s: Store, token: Option<string>): (r: Reply)
    ensures r == Fail <==> Falsy(token)
    ensures r == InvalidToken <==> !Falsy(token) && !Accounts.Known(s.users, token)
    ensures r.Ok? ==>
              && Accounts.Known(s.users, token)
              && var u := Accounts.Resolve(s.users, token).value.username;
                 && (r.openRecord.None? <==> !HasOpen(s.rows, u))
                 && (r.openRecord.Some? ==> r.openRecord.value in s.rows && OpenFor(r.openRecord.value, u))
                 && (r.openRecord.Some? ==> forall i :: 0 <= i < |s.rows| && OpenFor(s.rows[i], u)
                                                     ==> s.rows[i].clockIn <= r.openRecord.value.clockIn)
                 && (r.openRecord.Some? ==> r.openRecord.value !in r.records)
                 && r.records == ClosedRecords(s.rows, u)
                 && |r.records| <= MaxRecords
  {
    if Falsy(token) then Fail
    else match Accounts.Resolve(s.users, token)
      case None => InvalidToken
      case Some(user) =>
        var open := LatestOpen(s.rows, user.username);
        var records := ClosedRecords(s.rows, user.username);
        ClosedRecordsAreLatest(s.rows, user.username);
        Ok(open, records)
  }

  /**
   * The walk-through of a working day: alice punches in at `t0`, a second punch-in
   * an hour later is refused with the same open record, she punches out eight hours
   * after `t0` (28 800 000 ms), and her listing then shows no open record and that
   * one closed record.
   */
  lemma WorkingDay(alice: Accounts.User, token: string, w0: string, w1: string, w8: string,
                   parse: string -> Option<int>, t0: int)
    requires !Falsy(Some(token)) && alice.authToken == token
    requires !Falsy(Some(w0)) && !Falsy(Some(w1)) && !Falsy(Some(w8))
    requires parse(w0) == Some(t0) && parse(w1) == Some(t0 + 3600) && parse(w8) == Some(t0 + 28800)
    ensures var s0 := Store([alice], [], 0);
            var (in1, s1) := Punch.PunchIn(s0, Some(token), Some(w0), parse);
            var (in2, s2) := Punch.PunchIn(s1, Some(token), Some(w1), parse);
            var (out, s3) := Punch.PunchOut(s2, Some(token), Some(w8), parse);
            && in1 == Punch.Ok(Row(0, alice.username, t0, None, None))
            && in2 == Punch.OpenExists(Punch.OpenRef(0, t0)) && s2 == s1
            && out == Punch.Ok(Row(0, alice.username, t0, Some(t0 + 28800), Some(28800000)))
            && List(s3, Some(token)) == Ok(None, [out.record])
  {
    var s0 := Store([alice], [], 0);
    assert Accounts.Known(s0.users, Some(token)) by {
      assert s0.users[0].authToken == token;
    }
    var (in1, s1) := Punch.PunchIn(s0, Some(token), Some(w0), parse);
    assert s1.rows == [Row(0, alice.username, t0, None, None)];
    assert OpenFor(s1.rows[0], alice.username);
    var (in2, s2) := Punch.PunchIn(s1, Some(token), Some(w1), parse);
    var (out, s3) := Punch.PunchOut(s2, Some(token), Some(w8), parse);
    var closed := Row(0, alice.username, t0, Some(t0 + 28800), Some(28800000));
    assert s3.rows == [closed];
    assert !HasOpen(s3.rows, alice.username);
    assert ClosedOf(s3.rows, alice.username) == [closed];
    assert Ordering.SortDesc([closed], ClockIn) == [closed];
  }
}
