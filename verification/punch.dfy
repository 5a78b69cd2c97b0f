/**
 * The two mutating endpoints of the ledger, back/api/time_records/punch_in.php and
 * back/api/time_records/punch_out.php, as transitions of the store. `parse` stands
 * for PHP `strtotime`: a partial map from the client's `when` text to whole seconds.
 */
module Punch {
  import opened Wrappers
  import opened Text
  import Accounts
  import opened Ledger

  datatype FailReason = MissingInput | BadTimestamp

  /** The `{id, clock_in}` projection of an open row that punch-in reports back. */
  datatype OpenRef = OpenRef(id: nat, clockIn: int)

  datatype Reply =
    | Fail(reason: FailReason)
    | InvalidToken
    | OpenExists(open: OpenRef)
    | NoOpenRecord
    | InvalidRange
    | Ok(record: Row)

  /** Both request fields are present and truthy, and the token names a user. */
  predicate Authorised(s: Store, token: Option<string>, when: Option<string>)
  {
    !Falsy(token) && !Falsy(when) && Accounts.Known(s.users, token)
  }

  /** The username the token resolves to. */
  function Owner(s: Store, token: Option<string>): string
    requires Accounts.Known(s.users, token)
  {
    Accounts.Resolve(s.users, token).value.username
  }

  /** punch_in.php: guards in source order (inputs, token, open row, timestamp), then one insert. */
  function PunchIn(s: Store, token: Option<string>, when: Option<string>, parse: string -> Option<int>): (out: (Reply, Store))
    ensures !out.0.Ok? ==> out.1 == s
    ensures out.0 == Fail(MissingInput) <==> Falsy(token) || Falsy(when)
    ensures out.0 == InvalidToken <==> !Falsy(token) && !Falsy(when) && !Accounts.Known(s.users, token)
    ensures out.0.OpenExists? <==> Authorised(s, token, when) && HasOpen(s.rows, Owner(s, token))
    ensures out.0.OpenExists? ==>
              exists i :: 0 <= i < |s.rows| && OpenFor(s.rows[i], Owner(s, token))
                          && out.0.open == OpenRef(s.rows[i].id, s.rows[i].clockIn)
    ensures out.0.OpenExists? ==>
              && var open := LatestOpen(s.rows, Owner(s, token)).value;
              && out.0.open == OpenRef(open.id, open.clockIn)
              && forall i :: 0 <= i < |s.rows| && OpenFor(s.rows[i], Owner(s, token)) ==> s.rows[i].clockIn <= out.0.open.clockIn
    ensures out.0 == Fail(BadTimestamp) <==>
              Authorised(s, token, when) && !HasOpen(s.rows, Owner(s, token)) && parse(when.value).None?
    ensures !out.0.NoOpenRecord? && !out.0.InvalidRange?
    ensures out.0.Ok? ==>
              && Authorised(s, token, when) && !HasOpen(s.rows, Owner(s, token))
              && parse(when.value).Some?
              && out.0.record == Row(s.nextId, Owner(s, token), parse(when.value).value, None, None)
              && out.1 == Store(s.users, s.rows + [out.0.record], s.nextId + 1)
  {
    if Falsy(token) || Falsy(when) then (Fail(MissingInput), s)
    else match Accounts.Resolve(s.users, token)
      case None => (InvalidToken, s)
      case Some(user) =>
        match LatestOpen(s.rows, user.username)
        case Some(open) =>
          (OpenExists(OpenRef(open.id, open.clockIn)), s)
        case None =>
          match parse(when.value)
          case None => (Fail(BadTimestamp), s)
          case Some(t) =>
            var row := Row(s.nextId, user.username, t, None, None);
            (Ok(row), Store(s.users, s.rows + [row], s.nextId + 1))
  }

  /** `UPDATE TimeRecords SET clock_out = ?, duration_ms = ? WHERE id = ?`. */
  function CloseRows(rows: seq<Row>, id: nat, out: int, durationMs: int): (r: seq<Row>)
    ensures |r| == |rows|
    ensures forall i :: 0 <= i < |rows| && rows[i].id == id ==>
              r[i] == rows[i].(clockOut := Some(out), durationMs := Some(durationMs))
    ensures forall i :: 0 <= i < |rows| && rows[i].id != id ==> r[i] == rows[i]
  {
    seq(|rows|, i requires 0 <= i < |rows| =>
      if rows[i].id == id then rows[i].(clockOut := Some(out), durationMs := Some(durationMs)) else rows[i])
  }

  /** punch_out.php: guards in source order (inputs, token, open row, timestamp, range), then one update. */
  function PunchOut(s: Store, token: Option<string>, when: Option<string>, parse: string -> Option<int>): (out: (Reply, Store))
    ensures !out.0.Ok? ==> out.1 == s
    ensures out.0 == Fail(MissingInput) <==> Falsy(token) || Falsy(when)
    ensures out.0 == InvalidToken <==> !Falsy(token) && !Falsy(when) && !Accounts.Known(s.users, token)
    ensures out.0 == NoOpenRecord <==> Authorised(s, token, when) && !HasOpen(s.rows, Owner(s, token))
    ensures out.0 == Fail(BadTimestamp) <==>
              Authorised(s, token, when) && HasOpen(s.rows, Owner(s, token)) && parse(when.value).None?
    ensures out.0 == InvalidRange <==>
              && Authorised(s, token, when) && HasOpen(s.rows, Owner(s, token))
              && parse(when.value).Some?
              && parse(when.value).value < LatestOpen(s.rows, Owner(s, token)).value.clockIn
    ensures !out.0.OpenExists?
    ensures out.0.Ok? ==>
              && Authorised(s, token, when) && HasOpen(s.rows, Owner(s, token))
              && parse(when.value).Some?
              && var open := LatestOpen(s.rows, Owner(s, token)).value;
                 var t := parse(when.value).value;
                 && t >= open.clockIn
                 && out.0.record == open.(clockOut := Some(t), durationMs := Some((t - open.clockIn) * 1000))
                 && out.0.record.durationMs.value >= 0
                 && out.0.record.durationMs.value % 1000 == 0
                 && out.1.users == s.users && out.1.nextId == s.nextId
                 && |out.1.rows| == |s.rows|
                 && (forall i :: 0 <= i < |s.rows| && s.rows[i].id != open.id ==> out.1.rows[i] == s.rows[i])
                 && (forall i :: 0 <= i < |s.rows| && s.rows[i].id == open.id ==>
                       out.1.rows[i] == s.rows[i].(clockOut := out.0.record.clockOut,
                                                   durationMs := out.0.record.durationMs))
  {
    if Falsy(token) || Falsy(when) then (Fail(MissingInput), s)
    else match Accounts.Resolve(s.users, token)
      case None => (InvalidToken, s)
      case Some(user) =>
        match LatestOpen(s.rows, user.username)
        case None => (NoOpenRecord, s)
        case Some(open) =>
          match parse(when.value)
          case None => (Fail(BadTimestamp), s)
          case Some(t) =>
            if t < open.clockIn then (InvalidRange, s)
            else
              var durationMs := (t - open.clockIn) * 1000;
              var closed := open.(clockOut := Some(t), durationMs := Some(durationMs));
              (Ok(closed), Store(s.users, CloseRows(s.rows, open.id, t, durationMs), s.nextId))
  }

  /** A successful punch-in keeps the ledger invariant. */
  lemma PunchInPreservesValid(s: Store, token: Option<string>, when: Option<string>, parse: string -> Option<int>)
    requires Valid(s)
    ensures Valid(PunchIn(s, token, when, parse).1)
  {
    var (reply, s') := PunchIn(s, token, when, parse);
    if reply.Ok? {
      var u := Owner(s, token);
      var n := |s.rows|;
      assert forall i :: 0 <= i < n ==> s'.rows[i] == s.rows[i];
      assert forall i :: 0 <= i < n && s.rows[i].clockOut.None? ==> s.rows[i].username != u by {
        forall i | 0 <= i < n && s.rows[i].clockOut.None?
          ensures s.rows[i].username != u
        {
          assert !OpenFor(s.rows[i], u);
        }
      }
    }
  }

  /**
   * From Closed, a successful punch-in leaves the user with exactly one open row,
   * the new one, and no other user changes state.
   */
  lemma PunchInOpens(s: Store, token: Option<string>, when: Option<string>, parse: string -> Option<int>)
    requires PunchIn(s, token, when, parse).0.Ok?
    ensures var (reply, s') := PunchIn(s, token, when, parse);
            var u := Owner(s, token);
            && (forall i :: 0 <= i < |s'.rows| ==> (OpenFor(s'.rows[i], u) <==> i == |s.rows|))
            && (forall v :: v != u ==> (HasOpen(s'.rows, v) <==> HasOpen(s.rows, v)))
  {
    var (reply, s') := PunchIn(s, token, when, parse);
    var u := Owner(s, token);
    forall v | v != u
      ensures HasOpen(s'.rows, v) <==> HasOpen(s.rows, v)
    {
      if HasOpen(s'.rows, v) {
        var i :| 0 <= i < |s'.rows| && OpenFor(s'.rows[i], v);
        assert i < |s.rows| && s.rows[i] == s'.rows[i];
      }
      if HasOpen(s.rows, v) {
        var i :| 0 <= i < |s.rows| && OpenFor(s.rows[i], v);
        assert s'.rows[i] == s.rows[i];
      }
    }
    forall i | 0 <= i < |s.rows|
      ensures !OpenFor(s'.rows[i], u)
    {
      assert s'.rows[i] == s.rows[i];
    }
  }

  /** A successful punch-out keeps the ledger invariant. */
  lemma PunchOutPreservesValid(s: Store, token: Option<string>, when: Option<string>, parse: string -> Option<int>)
    requires Valid(s)
    ensures Valid(PunchOut(s, token, when, parse).1)
  {
    var (reply, s') := PunchOut(s, token, when, parse);
    if reply.Ok? {
      var open := LatestOpen(s.rows, Owner(s, token)).value;
      forall i | 0 <= i < |s.rows|
        ensures s'.rows[i].id == s.rows[i].id && s'.rows[i].username == s.rows[i].username
        ensures s'.rows[i].clockOut.None? ==> s.rows[i].clockOut.None?
        ensures Consistent(s'.rows[i])
      {
        if s.rows[i].id == open.id {
          assert s'.rows[i].clockOut.Some?;
          assert s'.rows[i].clockIn == s.rows[i].clockIn;
          var k :| 0 <= k < |s.rows| && s.rows[k] == open;
          assert k == i;
        }
      }
    }
  }

  /**
   * Given the invariant, a successful punch-out leaves the user Closed and no
   * other user changes state.
   */
  lemma PunchOutCloses(s: Store, token: Option<string>, when: Option<string>, parse: string -> Option<int>)
    requires Valid(s)
    requires PunchOut(s, token, when, parse).0.Ok?
    ensures var (reply, s') := PunchOut(s, token, when, parse);
            var u := Owner(s, token);
            && !HasOpen(s'.rows, u)
            && (forall v :: v != u ==> (HasOpen(s'.rows, v) <==> HasOpen(s.rows, v)))
  {
    var (reply, s') := PunchOut(s, token, when, parse);
    var u := Owner(s, token);
    var open := LatestOpen(s.rows, u).value;
    var k :| 0 <= k < |s.rows| && s.rows[k] == open;
    forall i | 0 <= i < |s.rows|
      ensures !OpenFor(s'.rows[i], u)
      ensures forall v :: v != u ==> (OpenFor(s'.rows[i], v) <==> OpenFor(s.rows[i], v))
    {
      if s.rows[i].id == open.id {
        assert i == k;
      } else {
        assert s'.rows[i] == s.rows[i];
        if i < k {
          assert s.rows[i].clockOut.None? ==> s.rows[i].username != s.rows[k].username;
        } else if k < i {
          assert s.rows[i].clockOut.None? ==> s.rows[k].username != s.rows[i].username;
        }
      }
    }
    forall v | v != u
      ensures HasOpen(s'.rows, v) <==> HasOpen(s.rows, v)
    {
      if HasOpen(s'.rows, v) {
        var i :| 0 <= i < |s'.rows| && OpenFor(s'.rows[i], v);
        assert OpenFor(s.rows[i], v);
      }
      if HasOpen(s.rows, v) {
        var i :| 0 <= i < |s.rows| && OpenFor(s.rows[i], v);
        assert OpenFor(s'.rows[i], v);
      }
    }
  }

  /**
   * Round trip: a Closed user who punches in at `t1` and then out at `t2 >= t1`
   * gets back the row just opened, closed at `t2` with `(t2 - t1) * 1000` ms.
   */
  lemma PunchInThenOut(s: Store, token: Option<string>, when1: Option<string>, when2: Option<string>,
                       parse: string -> Option<int>)
    requires PunchIn(s, token, when1, parse).0.Ok?
    requires !Falsy(when2) && parse(when2.value).Some?
    requires parse(when2.value).value >= parse(when1.value).value
    ensures var (inReply, s1) := PunchIn(s, token, when1, parse);
            var (outReply, s2) := PunchOut(s1, token, when2, parse);
            var t1, t2 := parse(when1.value).value, parse(when2.value).value;
            && outReply.Ok?
            && outReply.record.id == inReply.record.id
            && outReply.record.clockIn == t1
            && outReply.record.clockOut == Some(t2)
            && outReply.record.durationMs == Some((t2 - t1) * 1000)
  {
    var (inReply, s1) := PunchIn(s, token, when1, parse);
    var u := Owner(s, token);
    assert Owner(s1, token) == u;
    PunchInOpens(s, token, when1, parse);
    assert OpenFor(s1.rows[|s.rows|], u);
    var open := LatestOpen(s1.rows, u).value;
    var j :| 0 <= j < |s1.rows| && s1.rows[j] == open;
    assert j == |s.rows|;
  }
}
