/**
 * back/api/userRecords.php: the public listing of site-visit records. The query
 * parameters are clamped, the rows are fetched newest first with LIMIT/OFFSET,
 * and the page is grouped by username in first-seen order.
 */
module UserRecords {
  import opened Wrappers
  import opened Text
  import Ordering

  /** One row of the `records` table. */
  datatype Visit = Visit(username: string, site: string, timestamp: int)

  /** A record as it appears inside a group. */
  datatype Entry = Entry(site: string, timestamp: int)

  datatype Group = Group(username: string, records: seq<Entry>)

  datatype Reply = Reply(count: nat, items: seq<Group>)

  const DefaultLimit: int := 500

  /** `limit`: absent or outside [1, 500] (a non-numeric value casts to 0) becomes 500. */
  function EffectiveLimit(limit: Option<int>): (n: nat)
    ensures 1 <= n <= 500
    ensures limit.Some? && 1 <= limit.value <= 500 ==> n == limit.value
    ensures limit.None? || limit.value < 1 || limit.value > 500 ==> n == 500
  {
    var l := limit.GetOr(DefaultLimit);
    if l < 1 || l > 500 then 500 else l
  }

  /** `offset`: absent or negative becomes 0. */
  function EffectiveOffset(offset: Option<int>): (n: nat)
    ensures offset.Some? && offset.value >= 0 ==> n == offset.value
    ensures offset.None? || offset.value < 0 ==> n == 0
  {
    var o := offset.GetOr(0);
    if o < 0 then 0 else o
  }

  /** `username`: trimmed, and an empty result means no filter. */
  function UsernameFilter(username: Option<string>): (f: Option<string>)
    ensures f.None? <==> username.None? || Trim(username.value) == ""
    ensures f.Some? ==> f.value == Trim(username.value) && |f.value| > 0
  {
    var u := Trim(username.GetOr(""));
    if u == "" then None else Some(u)
  }

  function Timestamp(v: Visit): int
  {
    v.timestamp
  }

  /** The optional `WHERE username = ?`, in table order. */
  function Matching(table: seq<Visit>, filter: Option<string>): (r: seq<Visit>)
    ensures multiset(r) <= multiset(table)
    ensures forall v :: multiset(r)[v] == if filter.None? || v.username == filter.value then multiset(table)[v] else 0
    ensures filter.Some? ==> forall i :: 0 <= i < |r| ==> r[i].username == filter.value
    ensures filter.None? ==> r == table
  {
    if filter.None? || |table| == 0 then table
    else
      var rest := Matching(table[1..], filter);
      assert table == [table[0]] + table[1..];
      assert multiset(table) == multiset{table[0]} + multiset(table[1..]);
      if table[0].username == filter.value then [table[0]] + rest else rest
  }

  /** The query: filter, `ORDER BY timestamp DESC`, `LIMIT ? OFFSET ?`. */
  function Fetch(table: seq<Visit>, filter: Option<string>, limit: nat, offset: nat): (r: seq<Visit>)
    ensures |r| <= limit
    ensures Ordering.SortedDesc(r, Timestamp)
    ensures forall i :: 0 <= i < |r| ==> r[i] in table && (filter.Some? ==> r[i].username == filter.value)
    ensures exists p :: multiset(p) == multiset(Matching(table, filter)) && Ordering.SortedDesc(p, Timestamp)
                        && r == Ordering.Page(p, offset, limit)
  {
    var matching := Matching(table, filter);
    var sorted := Ordering.SortDesc(matching, Timestamp);
    var r := Ordering.Page(sorted, offset, limit);
    Ordering.PageKeepsOrder(sorted, offset, limit, Timestamp);
    assert forall i :: 0 <= i < |r| ==> r[i] in table && (filter.Some? ==> r[i].username == filter.value) by {
      forall i | 0 <= i < |r|
        ensures r[i] in table && (filter.Some? ==> r[i].username == filter.value)
      {
        assert r[i] in multiset(r);
        assert r[i] in multiset(matching);
        assert r[i] in matching;
        assert r[i] in multiset(table);
      }
    }
    r
  }

  /** The usernames of `rows` without repetition, in order of first appearance. */
  function FirstSeen(rows: seq<Visit>): seq<string>
  {
    if |rows| == 0 then []
    else
      var prev := FirstSeen(rows[..|rows| - 1]);
      var u := rows[|rows| - 1].username;
      if u in prev then prev else prev + [u]
  }

  /** The entries of the rows that belong to `u`, in the rows' order. */
  function EntriesOf(rows: seq<Visit>, u: string): seq<Entry>
  {
    if |rows| == 0 then []
    else
      var last := rows[|rows| - 1];
      EntriesOf(rows[..|rows| - 1], u) + if last.username == u then [Entry(last.site, last.timestamp)] else []
  }

  predicate Distinct(s: seq<string>)
  {
    forall i, j :: 0 <= i < j < |s| ==> s[i] != s[j]
  }

  function UsernamesOf(rows: seq<Visit>): set<string>
  {
    set i | 0 <= i < |rows| :: rows[i].username
  }

  /** First-seen order lists every username of the rows exactly once. */
  lemma {:induction false} FirstSeenSpec(rows: seq<Visit>)
    ensures Distinct(FirstSeen(rows))
    ensures forall u :: u in FirstSeen(rows) <==> u in UsernamesOf(rows)
  {
    if |rows| > 0 {
      var init := rows[..|rows| - 1];
      FirstSeenSpec(init);
      assert UsernamesOf(rows) == UsernamesOf(init) + {rows[|rows| - 1].username} by {
        forall u | u in UsernamesOf(rows) ensures u in UsernamesOf(init) + {rows[|rows| - 1].username} {
          var i :| 0 <= i < |rows| && rows[i].username == u;
          if i < |rows| - 1 {
            assert init[i] == rows[i];
          }
        }
        forall u | u in UsernamesOf(init) ensures u in UsernamesOf(rows) {
          var i :| 0 <= i < |init| && init[i].username == u;
          assert rows[i] == init[i];
        }
      }
    }
  }

  /** Username `u` occurs in the rows at a position before `k`. */
  predicate SeenBefore(rows: seq<Visit>, u: string, k: nat)
  {
    exists i :: 0 <= i < k && i < |rows| && rows[i].username == u
  }

  /** Groups come in first-seen order: each earlier group's username appeared earlier. */
  lemma {:induction false} FirstSeenOrder(rows: seq<Visit>, a: nat, b: nat)
    requires a < b < |FirstSeen(rows)|
    ensures exists k :: 0 <= k < |rows| && rows[k].username == FirstSeen(rows)[b]
                        && SeenBefore(rows, FirstSeen(rows)[a], k)
                        && !SeenBefore(rows, FirstSeen(rows)[b], k)
  {
    var init := rows[..|rows| - 1];
    var prev := FirstSeen(init);
    var last := rows[|rows| - 1];
    FirstSeenSpec(init);
    if b < |prev| {
      FirstSeenOrder(init, a, b);
      var k :| 0 <= k < |init| && init[k].username == prev[b]
               && SeenBefore(init, prev[a], k) && !SeenBefore(init, prev[b], k);
      var i :| 0 <= i < k && i < |init| && init[i].username == prev[a];
      assert rows[i] == init[i] && rows[k] == init[k];
      assert !SeenBefore(rows, prev[b], k) by {
        forall i | 0 <= i < k ensures rows[i].username != prev[b] {
          assert rows[i] == init[i];
        }
      }
    } else {
      assert FirstSeen(rows) == prev + [last.username] && FirstSeen(rows)[b] == last.username;
      assert prev[a] in UsernamesOf(init);
      var i :| 0 <= i < |init| && init[i].username == prev[a];
      assert rows[i] == init[i];
      var k := |rows| - 1;
      assert !SeenBefore(rows, last.username, k) by {
        forall i | 0 <= i < k ensures rows[i].username != last.username {
          assert rows[i] == init[i];
          assert init[i].username in UsernamesOf(init);
        }
      }
    }
  }

  /** Grouping is order-preserving: the entries of a concatenation are those of each part, in turn. */
  lemma {:induction false} EntriesOfAppend(a: seq<Visit>, b: seq<Visit>, u: string)
    ensures EntriesOf(a + b, u) == EntriesOf(a, u) + EntriesOf(b, u)
  {
    if |b| > 0 {
      var b' := b[..|b| - 1];
      assert (a + b)[..|a + b| - 1] == a + b';
      EntriesOfAppend(a, b', u);
    } else {
      assert a + b == a;
    }
  }

  /** A row is placed in the group of its username and in no other. */
  lemma {:induction false} EntriesOfCount(rows: seq<Visit>, u: string)
    ensures |EntriesOf(rows, u)| == |set i | 0 <= i < |rows| && rows[i].username == u|
  {
    if |rows| > 0 {
      var init := rows[..|rows| - 1];
      EntriesOfCount(init, u);
      var before := set i | 0 <= i < |init| && init[i].username == u;
      var after := set i | 0 <= i < |rows| && rows[i].username == u;
      if rows[|rows| - 1].username == u {
        assert after == before + {|rows| - 1};
      } else {
        assert after == before;
      }
    }
  }

  function TotalEntries(groups: seq<Group>): nat
  {
    if |groups| == 0 then 0 else |groups[0].records| + TotalEntries(groups[1..])
  }

  function SumEntries(rows: seq<Visit>, us: seq<string>): nat
  {
    if |us| == 0 then 0 else |EntriesOf(rows, us[0])| + SumEntries(rows, us[1..])
  }

  lemma {:induction false} SumEntriesAppendUser(rows: seq<Visit>, us: seq<string>, v: string)
    ensures SumEntries(rows, us + [v]) == SumEntries(rows, us) + |EntriesOf(rows, v)|
  {
    if |us| > 0 {
      assert (us + [v])[1..] == us[1..] + [v];
      SumEntriesAppendUser(rows, us[1..], v);
    }
  }

  /** Adding one row of `x` adds one entry to the total over users listing `x` once. */
  lemma {:induction false} SumEntriesAppendRow(rows: seq<Visit>, r: Visit, us: seq<string>)
    requires Distinct(us)
    ensures SumEntries(rows + [r], us) == SumEntries(rows, us) + (if r.username in us then 1 else 0)
  {
    if |us| > 0 {
      assert (rows + [r])[..|rows + [r]| - 1] == rows;
      assert Distinct(us[1..]) by {
        forall i, j | 0 <= i < j < |us[1..]| ensures us[1..][i] != us[1..][j] {
          assert us[1..][i] == us[i + 1] && us[1..][j] == us[j + 1];
        }
      }
      SumEntriesAppendRow(rows, r, us[1..]);
      assert us == [us[0]] + us[1..];
      if r.username == us[0] {
        assert r.username !in us[1..] by {
          forall k | 0 <= k < |us[1..]| ensures us[1..][k] != us[0] {
            assert us[1..][k] == us[k + 1];
          }
        }
      }
    }
  }

  /** The group sizes add up to the number of rows grouped. */
  lemma {:induction false} GroupSizesSum(rows: seq<Visit>)
    ensures SumEntries(rows, FirstSeen(rows)) == |rows|
  {
    if |rows| > 0 {
      var init := rows[..|rows| - 1];
      var last := rows[|rows| - 1];
      assert rows == init + [last];
      GroupSizesSum(init);
      FirstSeenSpec(init);
      var prev := FirstSeen(init);
      SumEntriesAppendRow(init, last, prev);
      if last.username !in prev {
        SumEntriesAppendUser(rows, prev, last.username);
        assert last.username !in UsernamesOf(init);
        assert EntriesOf(init, last.username) == [] by {
          EntriesOfCount(init, last.username);
          assert (set i | 0 <= i < |init| && init[i].username == last.username) == {} by {
            forall i | 0 <= i < |init| ensures init[i].username != last.username {
              assert init[i].username in UsernamesOf(init);
            }
          }
        }
      }
    }
  }

  /** A sequence without repetition has as many distinct elements as positions. */
  lemma {:induction false} DistinctCard(s: seq<string>)
    requires Distinct(s)
    ensures |set x | x in s| == |s|
  {
    if |s| > 0 {
      var init := s[..|s| - 1];
      var last := s[|s| - 1];
      assert s == init + [last];
      assert Distinct(init) by {
        forall i, j | 0 <= i < j < |init| ensures init[i] != init[j] {
          assert init[i] == s[i] && init[j] == s[j];
        }
      }
      DistinctCard(init);
      assert last !in init by {
        forall i | 0 <= i < |init| ensures init[i] != last {
          assert init[i] == s[i];
        }
      }
      assert (set x | x in s) == (set x | x in init) + {last};
    }
  }

  /** `count` is the number of distinct usernames among the rows. */
  lemma CountIsDistinctUsernames(rows: seq<Visit>)
    ensures |FirstSeen(rows)| == |UsernamesOf(rows)|
  {
    var fs := FirstSeen(rows);
    FirstSeenSpec(rows);
    DistinctCard(fs);
    assert (set x | x in fs) == UsernamesOf(rows);
  }

  /** Index of the group for `u`, or `|groups|` when there is none yet. */
  function FindGroup(groups: seq<Group>, u: string): (k: nat)
    ensures k <= |groups|
    ensures k < |groups| ==> groups[k].username == u
    ensures k == |groups| ==> forall j :: 0 <= j < |groups| ==> groups[j].username != u
  {
    if |groups| == 0 then 0
    else if groups[0].username == u then 0
    else 1 + FindGroup(groups[1..], u)
  }

  /** `groups` is the grouping of `rows`: first-seen order, each with that username's entries. */
  predicate GroupsOf(rows: seq<Visit>, groups: seq<Group>)
  {
    && |groups| == |FirstSeen(rows)|
    && (forall k :: 0 <= k < |groups| ==> groups[k].username == FirstSeen(rows)[k])
    && (forall k :: 0 <= k < |groups| ==> groups[k].records == EntriesOf(rows, groups[k].username))
  }

  /** A username that has not been seen has no entries yet. */
  lemma {:induction false} UnseenHasNoEntries(rows: seq<Visit>, u: string)
    requires u !in FirstSeen(rows)
    ensures EntriesOf(rows, u) == []
  {
    if |rows| > 0 {
      var init := rows[..|rows| - 1];
      assert rows[|rows| - 1].username in FirstSeen(rows);
      assert u !in FirstSeen(init);
      UnseenHasNoEntries(init, u);
    }
  }

  /** Loop step for a username seen for the first time: a new group goes at the end. */
  lemma NewGroupStep(rows: seq<Visit>, r: Visit, groups: seq<Group>)
    requires GroupsOf(rows, groups)
    requires r.username !in FirstSeen(rows)
    ensures GroupsOf(rows + [r], groups + [Group(r.username, [Entry(r.site, r.timestamp)])])
  {
    var rows' := rows + [r];
    assert rows'[..|rows|] == rows;
    UnseenHasNoEntries(rows, r.username);
    FirstSeenSpec(rows);
    forall k | 0 <= k < |groups|
      ensures groups[k].username != r.username
    {
      assert groups[k].username in FirstSeen(rows);
    }
  }

  /** Loop step for a username already seen: its group gets the entry at the end. */
  lemma ExtendGroupStep(rows: seq<Visit>, r: Visit, groups: seq<Group>, k: nat)
    requires GroupsOf(rows, groups)
    requires k < |groups| && groups[k].username == r.username
    ensures GroupsOf(rows + [r], groups[k := groups[k].(records := groups[k].records + [Entry(r.site, r.timestamp)])])
  {
    var rows' := rows + [r];
    assert rows'[..|rows|] == rows;
    assert r.username in FirstSeen(rows);
    FirstSeenSpec(rows);
    forall j | 0 <= j < |groups| && j != k
      ensures groups[j].username != r.username
    {
      assert FirstSeen(rows)[j] != FirstSeen(rows)[k];
    }
  }

  /** The `while ($stmt->fetch())` loop that builds `$users` keyed by username. */
  method GroupByUsername(rows: seq<Visit>) returns (groups: seq<Group>)
    ensures |groups| == |FirstSeen(rows)|
    ensures forall k :: 0 <= k < |groups| ==> groups[k].username == FirstSeen(rows)[k]
    ensures forall k :: 0 <= k < |groups| ==> groups[k].records == EntriesOf(rows, groups[k].username)
  {
    groups := [];
    var i := 0;
    while i < |rows|
      invariant 0 <= i <= |rows|
      invariant GroupsOf(rows[..i], groups)
    {
      var r := rows[i];
      assert rows[..i + 1] == rows[..i] + [r];
      var k := FindGroup(groups, r.username);
      if k == |groups| {
        assert r.username !in FirstSeen(rows[..i]) by {
          forall j | 0 <= j < |groups| ensures FirstSeen(rows[..i])[j] != r.username {
            assert groups[j].username == FirstSeen(rows[..i])[j];
          }
        }
        NewGroupStep(rows[..i], r, groups);
        groups := groups + [Group(r.username, [Entry(r.site, r.timestamp)])];
      } else {
        ExtendGroupStep(rows[..i], r, groups, k);
        groups := groups[k := groups[k].(records := groups[k].records + [Entry(r.site, r.timestamp)])];
      }
      i := i + 1;
    }
    assert rows[..i] == rows;
  }

  /**
   * The output of the grouping loop, as the endpoint reports it: one group per
   * distinct username in first-seen order, each with that username's entries.
   */
  predicate DescribesPage(page: seq<Visit>, items: seq<Group>)
  {
    && |items| == |UsernamesOf(page)|
    && |items| == |FirstSeen(page)|
    && (forall k :: 0 <= k < |items| ==> items[k].username == FirstSeen(page)[k])
    && TotalEntries(items) == |page|
    && (forall k :: 0 <= k < |items| ==> items[k].username in UsernamesOf(page))
    && (forall k :: 0 <= k < |items| ==> items[k].records == EntriesOf(page, items[k].username))
    && (forall u :: u in UsernamesOf(page) ==> exists k :: 0 <= k < |items| && items[k].username == u)
    && (forall a, b :: 0 <= a < b < |items| ==> items[a].username != items[b].username)
  }

  /**
   * Groups in first-seen order, one per distinct username, each holding exactly
   * that username's entries in page order, describe the page: every row sits in
   * the one group of its username, and the sizes add up.
   */
  lemma FirstSeenGroupsDescribePage(page: seq<Visit>, groups: seq<Group>)
    requires |groups| == |FirstSeen(page)|
    requires forall k :: 0 <= k < |groups| ==> groups[k].username == FirstSeen(page)[k]
    requires forall k :: 0 <= k < |groups| ==> groups[k].records == EntriesOf(page, groups[k].username)
    ensures DescribesPage(page, groups)
  {
    var fs := FirstSeen(page);
    FirstSeenSpec(page);
    CountIsDistinctUsernames(page);
    GroupSizesSum(page);
    TotalMatchesSum(page, groups, fs);
    forall u | u in UsernamesOf(page)
      ensures exists k :: 0 <= k < |groups| && groups[k].username == u
    {
      var k :| 0 <= k < |fs| && fs[k] == u;
      assert groups[k].username == u;
    }
  }

  /** The grouped reply for one fetched page: `count` is the number of groups. */
  method GroupPage(page: seq<Visit>) returns (reply: Reply)
    ensures reply.count == |reply.items|
    ensures DescribesPage(page, reply.items)
  {
    var groups := GroupByUsername(page);
    FirstSeenGroupsDescribePage(page, groups);
    reply := Reply(|groups|, groups);
  }

  /** userRecords.php after the method and connection checks. */
  method ListAll(table: seq<Visit>, username: Option<string>, limit: Option<int>, offset: Option<int>)
    returns (reply: Reply)
    ensures reply.count == |reply.items|
    ensures DescribesPage(Fetch(table, UsernameFilter(username), EffectiveLimit(limit), EffectiveOffset(offset)),
                          reply.items)
  {
    var page := Fetch(table, UsernameFilter(username), EffectiveLimit(limit), EffectiveOffset(offset));
    reply := GroupPage(page);
  }

  lemma {:induction false} TotalMatchesSum(rows: seq<Visit>, groups: seq<Group>, us: seq<string>)
    requires |groups| == |us|
    requires forall k :: 0 <= k < |groups| ==> groups[k].username == us[k]
    requires forall k :: 0 <= k < |groups| ==> groups[k].records == EntriesOf(rows, groups[k].username)
    ensures TotalEntries(groups) == SumEntries(rows, us)
  {
    if |groups| > 0 {
      TotalMatchesSum(rows, groups[1..], us[1..]);
    }
  }
}
