/** The data-access object: the entities the application hands it, and the object
    itself, whose fields stand for the database its connection reaches. Each method
    runs the statements of `BaralgaDAO.java` in order against those fields and is proved
    to leave the state the `Store` function of the same operation describes. */
module Dao {
  import opened Outcomes
  import opened Decimal
  import opened Tables
  import opened Schema
  import opened FilterQuery
  import opened Queries
  import Store

  class Project {
    var id: int
    var title: string
    var description: string
    var active: bool

    /** The columns an insert or update writes. */
    function Data(): ProjectData
      reads this
    {
      ProjectData(title, description, active)
    }
  }

  class ProjectActivity {
    var id: int
    var description: string
    var start: int
    var end: int
    var project: Project?

    /** What an insert or update binds; a null project gives no project id. */
    function Input(): Store.ActivityInput
      reads `description, `start, `end, `project, project
    {
      Store.ActivityInput(description, start, end, if project == null then None else Some(project.id))
    }
  }

  /** The inputs a collection of activities binds, element by element. */
  ghost function Inputs(xs: seq<ProjectActivity?>): (r: seq<Option<Store.ActivityInput>>)
    reads set x | x in xs && x != null, set x | x in xs && x != null :: x.project
    ensures |r| == |xs|
    ensures forall i :: 0 <= i < |xs| ==> r[i] == if xs[i] == null then None else Some(xs[i].Input())
  {
    if xs == [] then [] else [if xs[0] == null then None else Some(xs[0].Input())] + Inputs(xs[1..])
  }

  /** The ids a collection of activities names, element by element. */
  ghost function IdsOf(xs: seq<ProjectActivity?>): (r: seq<Option<int>>)
    reads set x | x in xs && x != null
    ensures |r| == |xs|
    ensures forall i :: 0 <= i < |xs| ==> r[i] == if xs[i] == null then None else Some(xs[i].id)
  {
    if xs == [] then [] else [if xs[0] == null then None else Some(xs[0].id)] + IdsOf(xs[1..])
  }

  /** Steps through a result set, copying each row into a new list. */
  method ReadAll<T>(resultSet: seq<T>) returns (list: seq<T>)
    ensures list == resultSet
  {
    list := [];
    var i := 0;
    while i < |resultSet|
      invariant 0 <= i <= |resultSet|
      invariant list == resultSet[..i]
    {
      list := list + [resultSet[i]];
      i := i + 1;
    }
  }

  lemma PrefixStep<T>(s: seq<T>, i: int)
    requires 0 <= i < |s|
    ensures s[..i + 1] == s[..i] + [s[i]]
    ensures s == s[..i + 1] + s[i + 1..]
    ensures s[..|s|] == s
  {
  }

  /** Every activity at a position `j` below `i` that does not occur again below `i`
      carries the id step `j` of the batch handed out: the counter's value `first`
      before the batch plus the number of non-null elements before position `j`. */
  ghost predicate IdsWritten(xs: seq<ProjectActivity?>, i: int, first: int, inputs: seq<Option<Store.ActivityInput>>)
    requires 0 <= i <= |xs| && |inputs| == |xs|
    reads set x | x in xs && x != null
  {
    forall j {:trigger LastOccurrence(xs, j, i)} :: 0 <= j < i && xs[j] != null && LastOccurrence(xs, j, i) ==>
      xs[j].id == first + Store.NonNullCount(inputs[..j])
  }

  /** A batch that failed at element `i`: the elements before it carry the ids they
      were given. */
  ghost predicate FailedAt(xs: seq<ProjectActivity?>, i: int, first: int, inputs: seq<Option<Store.ActivityInput>>)
    requires |inputs| == |xs|
    reads set x | x in xs && x != null
  {
    0 <= i < |xs| && IdsWritten(xs, i, first, inputs)
  }

  /** No element of `xs` between position `j` and `end` is the object at `j`. */
  ghost predicate LastOccurrence(xs: seq<ProjectActivity?>, j: int, end: int)
    requires 0 <= j < end <= |xs|
  {
    forall k :: j < k < end ==> xs[k] != xs[j]
  }

  ghost function Members(batch: Option<seq<ProjectActivity?>>): set<ProjectActivity?> {
    if batch.None? then {} else set x | x in batch.value
  }

  class BaralgaDAO {
    var tables: seq<string>
    var versions: Table<VersionData>
    var projects: Table<ProjectData>
    var activities: Table<ActivityData>
    /** The version `updateDatabase` read. */
    var databaseVersion: int
    /** The database's date functions. */
    const calendar: Calendar

    function State(): Store.Db
      reads this
    {
      Store.Db(tables, versions, projects, activities)
    }

    ghost predicate Valid()
      reads this
    {
      Store.Consistent(State())
    }

    /** A data-access object connected to `db`. */
    constructor(db: Store.Db, calendar: Calendar)
      requires Store.Consistent(db)
      ensures Valid() && State() == db && this.calendar == calendar && databaseVersion == 0
    {
      tables := db.tables;
      versions := db.versions;
      projects := db.projects;
      activities := db.activities;
      databaseVersion := 0;
      this.calendar := calendar;
    }

    /** `updateDatabase`: look for `db_version` in the table listing; when it is not
        there, create the schema; then read the version. */
    method UpdateDatabase() returns (outcome: Outcome)
      requires Valid()
      modifies this
      ensures Valid()
      ensures var e := Store.SetUp(old(State()));
        && State() == e.db
        && (e.outcome.Failed? ==> outcome == e.outcome && databaseVersion == old(databaseVersion))
        && (e.outcome == Done && Store.ReadVersion(e.db).Err? ==>
              outcome == Failed(DatabaseError) && databaseVersion == old(databaseVersion))
        && (e.outcome == Done && Store.ReadVersion(e.db).Ok? ==>
              outcome == Done && databaseVersion == Store.ReadVersion(e.db).value)
    {
      var databaseExists := VersionTableListed();
      if !databaseExists {
        outcome := CreateSchema();
        if outcome.Failed? {
          return;
        }
      }
      if VersionTable !in tables || !Store.OneDescription(versions.rows) {
        return Failed(DatabaseError);
      }
      // A query that runs yields exactly one row, so the -1 is always replaced.
      databaseVersion := -1;
      databaseVersion := Store.OrZero(Store.MaxVersion(versions.rows));
      return Done;
    }

    /** The search loop over the table listing of `updateDatabase`. */
    method VersionTableListed() returns (databaseExists: bool)
      ensures databaseExists == Store.VersionTableListed(State())
    {
      databaseExists := false;
      var i := 0;
      while i < |tables|
        invariant 0 <= i <= |tables|
        invariant forall k :: 0 <= k < i ==> !EqualsIgnoreCase(VersionTableName, tables[k])
      {
        if EqualsIgnoreCase(VersionTableName, tables[i]) {
          databaseExists := true;
          break;
        }
        i := i + 1;
      }
    }

    /** The three `create table` statements and the insert of the reference row, run
        when the listing has no version table. */
    method CreateSchema() returns (outcome: Outcome)
      requires Valid() && !Store.VersionTableListed(State())
      modifies this
      ensures Valid() && databaseVersion == old(databaseVersion)
      ensures var e := Store.SetUp(old(State()));
        State() == e.db && outcome == e.outcome
    {
      ghost var db := State();
      if VersionTable in tables {
        return Failed(DatabaseError);
      }
      tables := tables + [VersionTable];
      ghost var d1 := State();
      assert Store.CreateTable(db, VersionTable) == Ok(d1);
      if ProjectTable in tables {
        return Failed(DatabaseError);
      }
      tables := tables + [ProjectTable];
      ghost var d2 := State();
      assert Store.CreateTable(d1, ProjectTable) == Ok(d2);
      if ActivityTable in tables {
        return Failed(DatabaseError);
      }
      tables := tables + [ActivityTable];
      assert Store.CreateTable(d2, ActivityTable) == Ok(State());
      versions := Insert(versions, InitialVersion);
      return Done;
    }

    /** `remove(Project)`: the project's activities first, then the project. */
    method Remove(project: Project?) returns (outcome: Outcome)
      requires Valid()
      modifies this
      ensures Valid() && databaseVersion == old(databaseVersion)
      ensures var e := Store.RemoveProject(old(State()), if project == null then None else Some(project.id));
        State() == e.db && outcome == e.outcome
    {
      if project == null {
        return Done;
      }
      if ActivityTable !in tables {
        return Failed(DatabaseError);
      }
      var pid := project.id;
      ghost var e := Store.RemoveProject(State(), Some(pid));
      activities := Table(Store.OfOtherProjects(activities.rows, pid), activities.nextId);
      if ProjectTable !in tables || Store.IsReferenced(State(), pid) {
        assert State() == e.db;
        return Failed(DatabaseError);
      }
      projects := Table(WithoutIds(projects.rows, {pid}), projects.nextId);
      assert State() == e.db;
      return Done;
    }

    /** `addProject`: insert the project, then give it `max(id)` of the table. */
    method AddProject(project: Project?) returns (outcome: Outcome)
      requires Valid()
      modifies this, project
      ensures Valid() && databaseVersion == old(databaseVersion)
      ensures var e := Store.AddProject(old(State()), if project == null then None else Some(old(project.Data())));
        && State() == e.db && outcome == e.outcome
        && (project != null && e.newId.Some? ==> project.id == e.newId.value)
        && (project != null && e.newId.None? ==> project.id == old(project.id))
      ensures project != null ==> project.Data() == old(project.Data())
    {
      if project == null {
        return Done;
      }
      ghost var e := Store.AddProject(State(), Some(project.Data()));
      if ProjectTable !in tables {
        return Failed(DatabaseError);
      }
      projects := Insert(projects, project.Data());
      var id := Store.OrZero(MaxId(projects.rows));
      project.id := id;
      assert State() == e.db && e.newId == Some(id);
      return Done;
    }

    /** `getActiveProjects`: the active rows, each copied as an active project. */
    method GetActiveProjects() returns (r: Result<seq<Row<ProjectData>>>)
      ensures r == Store.ActiveProjects(State())
    {
      var result := Store.ActiveProjects(State());
      if result.Err? {
        return result;
      }
      var rows := result.value;
      var list := [];
      var i := 0;
      while i < |rows|
        invariant 0 <= i <= |rows|
        invariant list == rows[..i]
      {
        assert rows[i] in rows;
        list := list + [Row(rows[i].id, rows[i].data.(active := true))];
        i := i + 1;
      }
      assert rows[..|rows|] == rows;
      return Ok(list);
    }

    /** `getAllProjects`: every row, copied in storage order. */
    method GetAllProjects() returns (r: Result<seq<Row<ProjectData>>>)
      ensures r == Store.AllProjects(State())
    {
      if ProjectTable !in tables {
        return Err(DatabaseError);
      }
      var list := ReadAll(projects.rows);
      return Ok(list);
    }

    /** `getActivities(String)`: a null condition counts as the empty one. */
    method GetActivitiesWhere(condition: Option<string>) returns (r: Result<seq<JoinedRow>>)
      ensures r == Store.ActivitiesWhere(State(), if condition.None? then "" else condition.value, calendar)
    {
      var filterCondition := if condition.None? then "" else condition.value;
      var result := Store.ActivitiesWhere(State(), filterCondition, calendar);
      if result.Err? {
        return result;
      }
      var list := ReadAll(result.value);
      return Ok(list);
    }

    /** `getActivities()`: every activity with its project, ordered by start. */
    method GetActivities() returns (r: Result<seq<JoinedRow>>)
      ensures r == Store.ActivitiesWhere(State(), "", calendar)
      ensures r.Ok? <==> Store.HasTable(State(), ActivityTable) && Store.HasTable(State(), ProjectTable)
      ensures r.Ok? ==> SortedByStart(r.value)
      ensures r.Ok? ==> forall j :: j in r.value <==>
        j.activity in activities.rows && j.project in projects.rows && Joins(j)
    {
      r := GetActivitiesWhere(Some(""));
      ParseCondition(Unconstrained);
      if r.Ok? {
        Store.FilteredActivities(State(), Unconstrained, calendar);
      }
    }

    /** `getActivities(Filter)`: the condition is built clause by clause; a null filter
        asks for every activity. */
    method GetActivitiesMatching(filter: Option<Filter>) returns (r: Result<seq<JoinedRow>>)
      ensures filter.None? ==> r == Store.ActivitiesWhere(State(), "", calendar)
      ensures filter.Some? ==> r == Store.ActivitiesWhere(State(), Condition(filter.value), calendar)
      ensures r.Ok? <==> Store.HasTable(State(), ActivityTable) && Store.HasTable(State(), ProjectTable)
      ensures r.Ok? ==> SortedByStart(r.value)
      ensures r.Ok? ==> forall j :: j in r.value <==>
        && j.activity in activities.rows && j.project in projects.rows && Joins(j)
        && (filter.Some? ==> Accepts(filter.value, j.activity.data, calendar))
    {
      if filter.None? {
        r := GetActivities();
        return;
      }
      var f := filter.value;
      var sql := BuildCondition(f);
      r := GetActivitiesWhere(Some(sql));
      ParseCondition(f);
      if r.Ok? {
        Store.FilteredActivities(State(), f, calendar);
      }
    }

    /** The condition part of `getActivities(Filter)`: one clause per field the filter
        constrains, appended in the order project, day of week, week, month, year. */
    static method BuildCondition(f: Filter) returns (sql: string)
      ensures sql == Condition(f)
    {
      sql := "";
      if f.project.Some? && f.project.value > 0 {
        sql := sql + (Opening(ProjectField) + IntToString(f.project.value) + Closing(ProjectField));
      }
      assert sql == AppendClause("", f, ProjectField);
      ghost var s1 := sql;
      if f.day.Some? {
        // The filter and the database number the days of the week one apart.
        var dayOfWeek := DayOfWeekValue(f.day.value);
        sql := sql + (Opening(DayField) + IntToString(dayOfWeek) + Closing(DayField));
      }
      assert sql == AppendClause(s1, f, DayField);
      ghost var s2 := sql;
      if f.weekOfYear.Some? {
        sql := sql + (Opening(WeekField) + IntToString(f.weekOfYear.value) + Closing(WeekField));
      }
      assert sql == AppendClause(s2, f, WeekField);
      ghost var s3 := sql;
      if f.month.Some? {
        sql := sql + (Opening(MonthField) + IntToString(f.month.value) + Closing(MonthField));
      }
      assert sql == AppendClause(s3, f, MonthField);
      ghost var s4 := sql;
      if f.year.Some? {
        sql := sql + (Opening(YearField) + IntToString(f.year.value) + Closing(YearField));
      }
      assert sql == AppendClause(s4, f, YearField);
    }

    /** `addActivity`: insert the activity, then give it `max(id)` of the table. */
    method AddActivity(activity: ProjectActivity?) returns (outcome: Outcome)
      requires Valid()
      modifies this, {activity}`id
      ensures Valid() && databaseVersion == old(databaseVersion)
      ensures var e := Store.AddActivity(old(State()), if activity == null then None else Some(activity.Input()));
        && State() == e.db && outcome == e.outcome
        && (activity != null && e.newId.Some? ==> activity.id == e.newId.value)
        && (activity != null && e.newId.None? ==> activity.id == old(activity.id))
    {
      if activity == null {
        return Done;
      }
      ghost var e := Store.AddActivity(State(), Some(activity.Input()));
      if ActivityTable !in tables {
        return Failed(DatabaseError);
      }
      if activity.project == null {
        return Failed(NullDereference);
      }
      var pid := activity.project.id;
      if pid !in Ids(projects.rows) {
        // The foreign key refuses the row after its identity value was drawn.
        activities := activities.(nextId := activities.nextId + 1);
        return Failed(DatabaseError);
      }
      activities := Insert(activities, ActivityData(activity.description, activity.start, activity.end, pid));
      var id := Store.OrZero(MaxId(activities.rows));
      activity.id := id;
      assert State() == e.db && e.newId == Some(id);
      return Done;
    }

    /** `removeActivity`: delete the rows with the activity's id. */
    method RemoveActivity(activity: ProjectActivity?) returns (outcome: Outcome)
      requires Valid()
      modifies this
      ensures Valid() && databaseVersion == old(databaseVersion)
      ensures var e := Store.RemoveActivity(old(State()), if activity == null then None else Some(activity.id));
        State() == e.db && outcome == e.outcome
    {
      if activity == null {
        return Done;
      }
      if ActivityTable !in tables {
        return Failed(DatabaseError);
      }
      ghost var e := Store.RemoveActivity(State(), Some(activity.id));
      activities := Table(WithoutIds(activities.rows, {activity.id}), activities.nextId);
      assert State() == e.db;
      return Done;
    }

    /** `addActivities`: nothing for a null or empty collection, else each activity in
        turn, stopping at the first failure. Every activity of a batch that went
        through carries the id of the row its last occurrence inserted. */
    method AddActivities(batch: Option<seq<ProjectActivity?>>) returns (outcome: Outcome)
      requires Valid()
      modifies this, Members(batch)`id
      ensures Valid() && databaseVersion == old(databaseVersion)
      ensures var e := Store.AddActivities(old(State()), if batch.None? then None else Some(old(Inputs(batch.value))));
        State() == e.db && outcome == e.outcome
      ensures outcome == Done && batch.Some? ==> IdsWritten(batch.value, |batch.value|, old(activities.nextId), old(Inputs(batch.value)))
      ensures outcome.Failed? ==> batch.Some? && exists i ::
        && FailedAt(batch.value, i, old(activities.nextId), old(Inputs(batch.value)))
        && (forall x :: x in batch.value && x != null && x !in batch.value[..i] ==> x.id == old(x.id))
    {
      if batch.None? || |batch.value| == 0 {
        return Done;
      }
      ghost var failedAt;
      outcome, failedAt := AddInTurn(batch.value);
    }

    /** The state after the first `i` turns of the loop of `addActivities`, all of
        which went through. */
    ghost predicate AddedThrough(xs: seq<ProjectActivity?>, i: int, db0: Store.Db, inputs: seq<Option<Store.ActivityInput>>)
      reads this, set x | x in xs && x != null
    {
      && 0 <= i <= |xs| && |inputs| == |xs| && Store.Consistent(db0)
      && Store.AddEach(db0, inputs[..i]).outcome == Done
      && State() == Store.AddEach(db0, inputs[..i]).db
      && IdsWritten(xs, i, db0.activities.nextId, inputs)
    }

    /** The loop of `addActivities`. */
    method AddInTurn(xs: seq<ProjectActivity?>) returns (outcome: Outcome, ghost failedAt: int)
      requires Valid()
      modifies this, Members(Some(xs))`id
      ensures Valid() && databaseVersion == old(databaseVersion)
      ensures var e := Store.AddEach(old(State()), old(Inputs(xs)));
        State() == e.db && outcome == e.outcome
      ensures outcome == Done ==> IdsWritten(xs, |xs|, old(activities.nextId), old(Inputs(xs)))
      ensures outcome.Failed? ==> FailedAt(xs, failedAt, old(activities.nextId), old(Inputs(xs)))
      ensures outcome.Failed? ==> forall x :: x in xs && x != null && x !in xs[..failedAt] ==> x.id == old(x.id)
    {
      failedAt := 0;
      ghost var db0 := State();
      ghost var inputs := Inputs(xs);
      ghost var ids0: map<ProjectActivity, int> := map x: ProjectActivity | x in xs :: x.id;
      assert inputs[..0] == [];
      outcome := Done;
      for i := 0 to |xs|
        invariant databaseVersion == old(databaseVersion)
        invariant outcome == Done && AddedThrough(xs, i, db0, inputs)
        invariant Untouched(xs, i, ids0)
      {
        assert inputs[i] == if xs[i] == null then None else Some(xs[i].Input());
        outcome := AddTurn(xs, i, db0, inputs, ids0);
        if outcome.Failed? {
          failedAt := i;
          return;
        }
      }
      assert inputs[..|xs|] == inputs;
    }

    /** The elements at and after position `i` that do not occur before it still
        carry the ids `ids0` recorded. */
    ghost predicate Untouched(xs: seq<ProjectActivity?>, i: int, ids0: map<ProjectActivity, int>)
      requires 0 <= i <= |xs|
      reads set x | x in xs && x != null && x !in xs[..i]
    {
      forall x :: x in xs && x != null && x !in xs[..i] ==> x in ids0 && x.id == ids0[x]
    }

    /** Turn `i` of the loop of `addActivities`: either the batch goes through one
        element further, or it stops here with the outcome of the whole batch. */
    method AddTurn(xs: seq<ProjectActivity?>, i: int, ghost db0: Store.Db, ghost inputs: seq<Option<Store.ActivityInput>>,
                   ghost ids0: map<ProjectActivity, int>)
      returns (outcome: Outcome)
      requires Valid() && AddedThrough(xs, i, db0, inputs) && i < |xs| && Untouched(xs, i, ids0)
      requires inputs[i] == if xs[i] == null then None else Some(xs[i].Input())
      modifies this, {xs[i]}`id
      ensures Valid() && databaseVersion == old(databaseVersion)
      ensures outcome == Done ==> AddedThrough(xs, i + 1, db0, inputs) && Untouched(xs, i + 1, ids0)
      ensures outcome.Failed? ==> State() == Store.AddEach(db0, inputs).db && outcome == Store.AddEach(db0, inputs).outcome
      ensures outcome.Failed? ==> FailedAt(xs, i, db0.activities.nextId, inputs) && Untouched(xs, i, ids0)
    {
      PrefixStep(inputs, i);
      PrefixStep(xs, i);
      assert Untouched(xs, i + 1, ids0);
      outcome := AddStep(xs[i], db0, inputs[..i], inputs[i]);
      if outcome.Failed? {
        Store.AddEachStops(db0, inputs[..i + 1], inputs[i + 1..]);
        return;
      }
      forall j | 0 <= j < i + 1 && xs[j] != null && LastOccurrence(xs, j, i + 1)
        ensures xs[j].id == db0.activities.nextId + Store.NonNullCount(inputs[..j])
      {
        if j < i {
          assert xs[j] != xs[i] && LastOccurrence(xs, j, i);
        }
      }
    }

    /** One turn of the loop of `addActivities`: after the elements bound to `done`
        went through, the element `x`, bound to `input`, is added and, when it goes
        through, carries the next value of the counter. */
    method AddStep(x: ProjectActivity?, ghost db0: Store.Db, ghost done: seq<Option<Store.ActivityInput>>,
                   ghost input: Option<Store.ActivityInput>)
      returns (outcome: Outcome)
      requires Valid() && Store.Consistent(db0)
      requires Store.AddEach(db0, done).outcome == Done && State() == Store.AddEach(db0, done).db
      requires input == if x == null then None else Some(x.Input())
      modifies this, {x}`id
      ensures Valid() && databaseVersion == old(databaseVersion)
      ensures State() == Store.AddEach(db0, done + [input]).db && outcome == Store.AddEach(db0, done + [input]).outcome
      ensures outcome == Done && x != null ==> x.id == db0.activities.nextId + Store.NonNullCount(done)
      ensures outcome.Failed? && x != null ==> x.id == old(x.id)
    {
      Store.AddEachSnoc(db0, done, input);
      Store.AddEachAppends(db0, done);
      ghost var e := Store.AddActivity(State(), input);
      assert Store.AddEach(db0, done + [input]) == Store.Effect(e.db, e.outcome, None);
      outcome := AddActivity(x);
      assert x != null ==> x.Input() == input.value;
      assert State() == e.db && outcome == e.outcome;
    }

    /** `removeActivities`: each activity in turn, stopping at the first failure. */
    method RemoveActivities(batch: Option<seq<ProjectActivity?>>) returns (outcome: Outcome)
      requires Valid()
      modifies this
      ensures Valid() && databaseVersion == old(databaseVersion)
      ensures var e := Store.RemoveActivities(old(State()), if batch.None? then None else Some(IdsOf(batch.value)));
        State() == e.db && outcome == e.outcome
    {
      if batch.None? || |batch.value| == 0 {
        return Done;
      }
      outcome := RemoveInTurn(batch.value);
    }

    /** The loop of `removeActivities`. */
    method RemoveInTurn(xs: seq<ProjectActivity?>) returns (outcome: Outcome)
      requires Valid()
      modifies this
      ensures Valid() && databaseVersion == old(databaseVersion)
      ensures var e := Store.RemoveEach(old(State()), IdsOf(xs));
        State() == e.db && outcome == e.outcome
    {
      ghost var db0 := State();
      ghost var ids := IdsOf(xs);
      assert ids[..0] == [];
      outcome := Done;
      for i := 0 to |xs|
        invariant databaseVersion == old(databaseVersion)
        invariant outcome == Done && RemovedThrough(i, db0, ids)
      {
        outcome := RemoveStep(xs[i], i, db0, ids);
        if outcome.Failed? {
          PrefixStep(ids, i);
          Store.RemoveEachStops(db0, ids[..i + 1], ids[i + 1..]);
          return;
        }
      }
      assert ids[..|xs|] == ids;
    }

    /** The state after the first `i` turns of the loop of `removeActivities`. */
    ghost predicate RemovedThrough(i: int, db0: Store.Db, ids: seq<Option<int>>)
      reads this
    {
      && 0 <= i <= |ids| && Store.Consistent(db0) && Valid()
      && Store.RemoveEach(db0, ids[..i]).outcome == Done
      && State() == Store.RemoveEach(db0, ids[..i]).db
    }

    /** One turn of the loop of `removeActivities`: the element at `i` is removed. */
    method RemoveStep(x: ProjectActivity?, i: int, ghost db0: Store.Db, ghost ids: seq<Option<int>>)
      returns (outcome: Outcome)
      requires i < |ids| && RemovedThrough(i, db0, ids)
      requires ids[i] == (if x == null then None else Some(x.id))
      modifies this
      ensures databaseVersion == old(databaseVersion)
      ensures outcome == Done ==> RemovedThrough(i + 1, db0, ids)
      ensures outcome.Failed? ==>
        State() == Store.RemoveEach(db0, ids[..i + 1]).db && outcome == Store.RemoveEach(db0, ids[..i + 1]).outcome
    {
      PrefixStep(ids, i);
      Store.RemoveEachSnoc(db0, ids[..i], ids[i]);
      outcome := RemoveActivity(x);
    }

    /** `updateProject`: overwrite the row with the project's id. */
    method UpdateProject(project: Project?) returns (outcome: Outcome)
      requires Valid()
      modifies this
      ensures Valid() && databaseVersion == old(databaseVersion)
      ensures project == null ==> State() == old(State()) && outcome == Done
      ensures project != null ==>
        var e := Store.UpdateProject(old(State()), project.id, project.Data());
        State() == e.db && outcome == e.outcome
    {
      if project == null {
        return Done;
      }
      ghost var e := Store.UpdateProject(State(), project.id, project.Data());
      if ProjectTable !in tables {
        return Failed(DatabaseError);
      }
      projects := Table(SetData(projects.rows, project.id, project.Data()), projects.nextId);
      assert State() == e.db;
      return Done;
    }

    /** `updateActivity`: overwrite the row with the activity's id. */
    method UpdateActivity(activity: ProjectActivity?) returns (outcome: Outcome)
      requires Valid()
      modifies this
      ensures Valid() && databaseVersion == old(databaseVersion)
      ensures activity == null ==> State() == old(State()) && outcome == Done
      ensures activity != null ==>
        var e := Store.UpdateActivity(old(State()), activity.id, activity.Input());
        State() == e.db && outcome == e.outcome
    {
      if activity == null {
        return Done;
      }
      ghost var e := Store.UpdateActivity(State(), activity.id, activity.Input());
      if ActivityTable !in tables {
        return Failed(DatabaseError);
      }
      if activity.project == null {
        return Failed(NullDereference);
      }
      var pid := activity.project.id;
      if activity.id in Ids(activities.rows) && pid !in Ids(projects.rows) {
        return Failed(DatabaseError);
      }
      var d := ActivityData(activity.description, activity.start, activity.end, pid);
      activities := Table(SetData(activities.rows, activity.id, d), activities.nextId);
      assert State() == e.db;
      return Done;
    }

    /** `findProjectById`: the first row the query returns, if any. */
    method FindProjectById(projectId: Option<int>) returns (r: Result<Option<Row<ProjectData>>>)
      ensures r == Store.FindProject(State(), projectId)
    {
      if projectId.None? {
        return Ok(None);
      }
      if ProjectTable !in tables {
        return Err(DatabaseError);
      }
      var id := projectId.value;
      var rows := Store.ProjectsWithId(projects.rows, id);
      Store.FirstOfSelection(projects.rows, id);
      if |rows| > 0 {
        return Ok(Some(rows[0]));
      }
      return Ok(None);
    }

    /** The distinct values of one date part of the activities' starts, largest first. */
    method StartPartList(part: int -> int) returns (r: Result<seq<int>>)
      ensures r == Store.StartPartList(State(), part)
    {
      var result := Store.StartPartList(State(), part);
      if result.Err? {
        return result;
      }
      var list := ReadAll(result.value);
      return Ok(list);
    }

    /** `getMonthList` */
    method GetMonthList() returns (r: Result<seq<int>>)
      ensures r == Store.StartPartList(State(), calendar.month)
    {
      r := StartPartList(calendar.month);
    }

    /** `getYearList` */
    method GetYearList() returns (r: Result<seq<int>>)
      ensures r == Store.StartPartList(State(), calendar.year)
    {
      r := StartPartList(calendar.year);
    }

    /** `getWeekOfYearList` */
    method GetWeekOfYearList() returns (r: Result<seq<int>>)
      ensures r == Store.StartPartList(State(), calendar.week)
    {
      r := StartPartList(calendar.week);
    }
  }
}
