/** What the database answers to the read-only queries of the data-access object:
    the activity/project join filtered by a condition and ordered by start, and the
    distinct, descending lists of months, years and weeks that have activities. */
module Queries {
  import opened Tables
  import opened Schema
  import opened FilterQuery

  /** One row of `select * from activity, project where activity.project_id = project.id`. */
  datatype JoinedRow = JoinedRow(activity: Row<ActivityData>, project: Row<ProjectData>)

  function StartOf(j: JoinedRow): int {
    j.activity.data.start
  }

  predicate Joins(j: JoinedRow) {
    j.activity.data.projectId == j.project.id
  }

  /** The project rows an activity row joins with, in storage order. */
  function Partners(a: Row<ActivityData>, projects: seq<Row<ProjectData>>): (r: seq<JoinedRow>)
    ensures forall j :: j in r <==> j.activity == a && j.project in projects && Joins(j)
  {
    if projects == [] then []
    else
      (if a.data.projectId == projects[0].id then [JoinedRow(a, projects[0])] else [])
      + Partners(a, projects[1..])
  }

  /** The join of the two tables, here activity-major; the database promises no order,
      and the sort by start is all the query fixes. */
  function Join(activities: seq<Row<ActivityData>>, projects: seq<Row<ProjectData>>): (r: seq<JoinedRow>)
    ensures forall j :: j in r <==> j.activity in activities && j.project in projects && Joins(j)
  {
    if activities == [] then [] else Partners(activities[0], projects) + Join(activities[1..], projects)
  }

  /** The joined rows whose activity satisfies every clause of the condition. */
  function Select(rows: seq<JoinedRow>, cs: seq<Clause>, cal: Calendar): (r: seq<JoinedRow>)
    ensures forall j :: j in r <==> j in rows && AllHold(cs, j.activity.data, cal)
    ensures multiset(r) <= multiset(rows)
  {
    if rows == [] then []
    else
      assert rows == [rows[0]] + rows[1..];
      (if AllHold(cs, rows[0].activity.data, cal) then [rows[0]] else []) + Select(rows[1..], cs, cal)
  }

  ghost predicate SortedByStart(s: seq<JoinedRow>) {
    forall i, j :: 0 <= i < j < |s| ==> StartOf(s[i]) <= StartOf(s[j])
  }

  /** Places `x` before the first row that starts later than or together with it. */
  function InsertByStart(x: JoinedRow, s: seq<JoinedRow>): (r: seq<JoinedRow>)
    requires SortedByStart(s)
    ensures SortedByStart(r)
    ensures multiset(r) == multiset(s) + multiset{x}
  {
    if s == [] || StartOf(x) <= StartOf(s[0]) then
      assert forall y :: y in s ==> StartOf(x) <= StartOf(y) by {
        forall y | y in s ensures StartOf(x) <= StartOf(y) {
          var k :| 0 <= k < |s| && s[k] == y;
        }
      }
      ConsSorted(x, s);
      [x] + s
    else
      var rest := InsertByStart(x, s[1..]);
      HeadBelowRest(s, x, rest);
      ConsSorted(s[0], rest);
      assert s == [s[0]] + s[1..];
      [s[0]] + rest
  }

  /** After `x` goes into the tail of a sorted list, the head still starts no later
      than anything in the tail. */
  lemma HeadBelowRest(s: seq<JoinedRow>, x: JoinedRow, rest: seq<JoinedRow>)
    requires SortedByStart(s) && s != [] && StartOf(s[0]) < StartOf(x)
    requires multiset(rest) == multiset(s[1..]) + multiset{x}
    ensures forall y :: y in rest ==> StartOf(s[0]) <= StartOf(y)
  {
    forall y | y in rest ensures StartOf(s[0]) <= StartOf(y) {
      assert y in multiset(rest);
      if y != x {
        assert y in multiset(s[1..]);
        var k :| 0 <= k < |s[1..]| && s[1..][k] == y;
        assert s[k + 1] == y;
      }
    }
  }

  /** A row that starts no later than every row of a sorted list can go in front. */
  lemma ConsSorted(h: JoinedRow, s: seq<JoinedRow>)
    requires SortedByStart(s)
    requires forall y :: y in s ==> StartOf(h) <= StartOf(y)
    ensures SortedByStart([h] + s)
  {
    var r := [h] + s;
    forall i, j | 0 <= i < j < |r| ensures StartOf(r[i]) <= StartOf(r[j]) {
      assert r[j] == s[j - 1];
      if i == 0 {
        assert s[j - 1] in s;
      } else {
        assert r[i] == s[i - 1];
      }
    }
  }

  /** `order by start asc`: the rows ordered by start time. The database leaves the
      order of rows that start together open; this insertion sort keeps their join
      order, which is one of the orders the database may return. */
  function SortByStart(s: seq<JoinedRow>): (r: seq<JoinedRow>)
    ensures SortedByStart(r)
    ensures multiset(r) == multiset(s)
  {
    if s == [] then []
    else
      assert s == [s[0]] + s[1..];
      InsertByStart(s[0], SortByStart(s[1..]))
  }

  /** The answer to the activity query under the clauses `cs`. */
  function Activities(activities: seq<Row<ActivityData>>, projects: seq<Row<ProjectData>>, cs: seq<Clause>, cal: Calendar): (r: seq<JoinedRow>)
    ensures SortedByStart(r)
    ensures forall j :: j in r <==> j.activity in activities && j.project in projects && Joins(j) && AllHold(cs, j.activity.data, cal)
    ensures multiset(r) == multiset(Select(Join(activities, projects), cs, cal))
  {
    var r := SortByStart(Select(Join(activities, projects), cs, cal));
    assert forall j :: j in r <==> j in multiset(r);
    r
  }

  ghost predicate StrictlyDescending(s: seq<int>) {
    forall i, j :: 0 <= i < j < |s| ==> s[i] > s[j]
  }

  /** Adds `v` to a strictly descending list unless it is already there. */
  function InsertDescending(v: int, s: seq<int>): (r: seq<int>)
    requires StrictlyDescending(s)
    ensures StrictlyDescending(r)
    ensures forall x :: x in r <==> x == v || x in s
  {
    if s == [] || v > s[0] then [v] + s
    else if v == s[0] then s
    else
      var rest := InsertDescending(v, s[1..]);
      assert forall y :: y in rest ==> y < s[0] by {
        forall y | y in rest ensures y < s[0] {
          if y != v {
            var k :| 0 <= k < |s[1..]| && s[1..][k] == y;
            assert s[k + 1] == y;
          }
        }
      }
      ConsDescending(s[0], rest);
      [s[0]] + rest
  }

  /** A value above every value of a strictly descending list can go in front. */
  lemma ConsDescending(h: int, s: seq<int>)
    requires StrictlyDescending(s)
    requires forall y :: y in s ==> y < h
    ensures StrictlyDescending([h] + s)
  {
    var r := [h] + s;
    forall i, j | 0 <= i < j < |r| ensures r[i] > r[j] {
      assert r[j] == s[j - 1];
      if i == 0 {
        assert s[j - 1] in s;
      } else {
        assert r[i] == s[i - 1];
      }
    }
  }

  /** `select distinct … order by … desc`: each value once, largest first. */
  function DistinctDescending(values: seq<int>): (r: seq<int>)
    ensures StrictlyDescending(r)
    ensures forall x :: x in r <==> x in values
  {
    if values == [] then [] else InsertDescending(values[0], DistinctDescending(values[1..]))
  }

  /** A date part of every activity's start, in storage order. */
  function StartParts(activities: seq<Row<ActivityData>>, part: int -> int): (r: seq<int>)
    ensures |r| == |activities|
    ensures forall i :: 0 <= i < |activities| ==> r[i] == part(activities[i].data.start)
  {
    if activities == [] then [] else [part(activities[0].data.start)] + StartParts(activities[1..], part)
  }
}
