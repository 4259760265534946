/** The database the data-access object works on, as a value, and what each of its
    operations does to it. The SQL text of every statement gives the meaning: ISO
    `insert`, `update … where id = ?` and `delete … where …`, with the identity columns,
    the foreign key from `activity.project_id` to `project.id`, and the failures H2
    reports (a missing table, a table created twice, a foreign-key violation). */
module Store {
  import opened Outcomes
  import opened Tables
  import opened Schema
  import opened FilterQuery
  import opened Queries

  /** The tables the connection reaches: their names as `SHOW TABLES` lists them, and
      the rows of the three tables of the application. */
  datatype Db = Db(
    tables: seq<string>,
    versions: Table<VersionData>,
    projects: Table<ProjectData>,
    activities: Table<ActivityData>)

  /** What an operation leaves behind: the database, how the call ended, and the id it
      wrote back onto the entity passed in (only the two add operations write one). */
  datatype Effect = Effect(db: Db, outcome: Outcome, newId: Option<int>)

  /** An activity as the add and update statements read it: its project is None when
      the activity's project is null. */
  datatype ActivityInput = ActivityInput(description: string, start: int, end: int, project: Option<int>)

  predicate HasTable(db: Db, name: string) {
    name in db.tables
  }

  /** Every activity refers to an existing project (the foreign key). */
  ghost predicate Referenced(db: Db) {
    forall a :: a in db.activities.rows ==> a.data.projectId in Ids(db.projects.rows)
  }

  ghost predicate Consistent(db: Db) {
    && Wf(db.versions) && Wf(db.projects) && Wf(db.activities)
    && (!HasTable(db, VersionTable) ==> db.versions == Created())
    && (!HasTable(db, ProjectTable) ==> db.projects == Created())
    && (!HasTable(db, ActivityTable) ==> db.activities == Created())
    && Referenced(db)
  }

  /** `getLong` / `getInt` of an aggregate: SQL NULL reads as 0. */
  function OrZero(m: Option<int>): int {
    if m.Some? then m.value else 0
  }

  // ---------------------------------------------------------------------------
  // Schema set-up and version

  /** The table listing holds a name equal to `db_version` when case is ignored; the
      name H2 lists for the version table is one. */
  predicate VersionTableListed(db: Db): (b: bool)
    ensures HasTable(db, VersionTable) ==> b
  {
    assert EqualsIgnoreCase(VersionTableName, VersionTable);
    exists i :: 0 <= i < |db.tables| && EqualsIgnoreCase(VersionTableName, db.tables[i])
  }

  /** `create table`: refused when a table of that name exists. */
  function CreateTable(db: Db, name: string): (r: Result<Db>)
    ensures r.Err? <==> HasTable(db, name)
    ensures r.Ok? ==> |r.value.tables| == |db.tables| + 1 && r.value.tables[..|db.tables|] == db.tables
    ensures r.Ok? ==> HasTable(r.value, name) && r.value == db.(tables := r.value.tables)
  {
    if HasTable(db, name) then Err(DatabaseError) else Ok(db.(tables := db.tables + [name]))
  }

  /** The schema part of `updateDatabase`: when the listing has no version table, create
      the version, project and activity tables, in that order, then insert the reference
      version row. Statements that ran before a failing one keep their effect. */
  function SetUp(db: Db): (e: Effect)
    requires Consistent(db)
    ensures Consistent(e.db) && e.newId.None?
    ensures VersionTableListed(db) ==> e == Effect(db, Done, None)
    ensures e.outcome.Failed? <==> !VersionTableListed(db) && (HasTable(db, ProjectTable) || HasTable(db, ActivityTable))
    ensures e.outcome.Failed? ==> e.outcome == Failed(DatabaseError) && HasTable(e.db, VersionTable)
    ensures !VersionTableListed(db) && e.outcome == Done ==>
      HasTable(e.db, VersionTable) && HasTable(e.db, ProjectTable) && HasTable(e.db, ActivityTable)
      && e.db.versions.rows == [Row(1, InitialVersion)]
  {
    if VersionTableListed(db) then Effect(db, Done, None)
    else match CreateTable(db, VersionTable)
      case Err(x) => Effect(db, Failed(x), None)
      case Ok(d1) =>
        match CreateTable(d1, ProjectTable)
        case Err(x) => Effect(d1, Failed(x), None)
        case Ok(d2) =>
          match CreateTable(d2, ActivityTable)
          case Err(x) => Effect(d2, Failed(x), None)
          case Ok(d3) => Effect(d3.(versions := Insert(d3.versions, InitialVersion)), Done, None)
  }

  /** `select max(version) …`: SQL NULL on an empty table. */
  function MaxVersion(rows: seq<Row<VersionData>>): (m: Option<int>)
    ensures m.None? <==> rows == []
    ensures m.Some? ==> (exists r :: r in rows && r.data.version == m.value)
    ensures m.Some? ==> forall r :: r in rows ==> r.data.version <= m.value
  {
    if rows == [] then None
    else match MaxVersion(rows[1..])
      case None => Some(rows[0].data.version)
      case Some(x) => Some(if rows[0].data.version > x then rows[0].data.version else x)
  }

  /** The rows of `db_version` agree on one `description`. The version query selects
      that column beside `max(version)` without grouping it, and H2 evaluates it only
      when the single group holds at least one row and every row has the same value;
      otherwise it reports that the column must be in the `GROUP BY` list. */
  predicate OneDescription(rows: seq<Row<VersionData>>) {
    rows != [] && forall i :: 0 <= i < |rows| ==> rows[i].data.description == rows[0].data.description
  }

  /** The version `updateDatabase` reports. When the query runs, its one row replaces
      the initial -1. */
  function ReadVersion(db: Db): (r: Result<int>)
    ensures r.Ok? <==> (
      && HasTable(db, VersionTable) && db.versions.rows != []
      && forall v, w :: v in db.versions.rows && w in db.versions.rows ==> v.data.description == w.data.description)
    ensures r.Err? ==> r == Err(DatabaseError)
    ensures r.Ok? ==> exists v :: v in db.versions.rows && v.data.version == r.value
    ensures r.Ok? ==> forall v :: v in db.versions.rows ==> v.data.version <= r.value
  {
    if !HasTable(db, VersionTable) || !OneDescription(db.versions.rows) then Err(DatabaseError)
    else Ok(OrZero(MaxVersion(db.versions.rows)))
  }

  /** On a database without any of the three tables, set-up creates exactly them and
      the one reference row, and the reported version is 1. */
  lemma SetUpOnEmptyDatabase(db: Db)
    requires Consistent(db)
    requires !VersionTableListed(db) && !HasTable(db, ProjectTable) && !HasTable(db, ActivityTable)
    ensures SetUp(db) == Effect(
      Db(db.tables + [VersionTable, ProjectTable, ActivityTable], Table([Row(1, InitialVersion)], 2), Created(), Created()),
      Done, None)
    ensures ReadVersion(SetUp(db).db) == Ok(1)
  {
    CreatesThreeTables(db);
    var d3 := db.(tables := db.tables + [VersionTable, ProjectTable, ActivityTable]);
    assert Insert(d3.versions, InitialVersion) == Table([Row(1, InitialVersion)], 2);
    var r := Db(db.tables + [VersionTable, ProjectTable, ActivityTable], Table([Row(1, InitialVersion)], 2), Created(), Created());
    assert SetUp(db) == Effect(r, Done, None);
    ReadsReferenceVersion(r);
  }

  /** The three `create table` statements of set-up, on a database that has none of
      the three tables, each add their table to the listing. */
  lemma CreatesThreeTables(db: Db)
    requires !HasTable(db, VersionTable) && !HasTable(db, ProjectTable) && !HasTable(db, ActivityTable)
    ensures var d1 := db.(tables := db.tables + [VersionTable]);
      var d2 := d1.(tables := d1.tables + [ProjectTable]);
      && CreateTable(db, VersionTable) == Ok(d1)
      && CreateTable(d1, ProjectTable) == Ok(d2)
      && CreateTable(d2, ActivityTable) == Ok(db.(tables := db.tables + [VersionTable, ProjectTable, ActivityTable]))
  {
    var d1 := db.(tables := db.tables + [VersionTable]);
    var d2 := d1.(tables := d1.tables + [ProjectTable]);
    assert !HasTable(d1, ProjectTable);
    assert !HasTable(d2, ActivityTable);
    assert d2.tables + [ActivityTable] == db.tables + [VersionTable, ProjectTable, ActivityTable];
  }

  /** A version table holding just the reference row reads as version 1. */
  lemma ReadsReferenceVersion(d: Db)
    requires HasTable(d, VersionTable) && d.versions.rows == [Row(1, InitialVersion)]
    ensures ReadVersion(d) == Ok(1)
  {
    assert MaxVersion(d.versions.rows) == Some(1);
    assert OneDescription(d.versions.rows);
  }

  /** On a database that already has its version table, set-up changes nothing. The
      version read then succeeds exactly when that table holds rows with one common
      description, and reports the largest stored version. */
  lemma SetUpOnExistingDatabase(db: Db)
    requires Consistent(db)
    requires HasTable(db, VersionTable)
    ensures SetUp(db) == Effect(db, Done, None)
    ensures ReadVersion(SetUp(db).db).Ok? <==> OneDescription(db.versions.rows)
    ensures ReadVersion(SetUp(db).db).Ok? ==>
      (exists r :: r in db.versions.rows && r.data.version == ReadVersion(db).value)
      && (forall r :: r in db.versions.rows ==> r.data.version <= ReadVersion(db).value)
  {
  }

  /** Set-up stops at the first `create table` that finds its table present, and the
      tables created before it stay. The version table is then empty but listed, so
      every later set-up skips the schema and the version read fails, because the
      ungrouped `description` has no row to take its value from. */
  lemma SetUpStopsAtExistingTable(db: Db)
    requires Consistent(db) && !VersionTableListed(db)
    ensures HasTable(db, ProjectTable) ==>
      SetUp(db) == Effect(db.(tables := db.tables + [VersionTable]), Failed(DatabaseError), None)
    ensures !HasTable(db, ProjectTable) && HasTable(db, ActivityTable) ==>
      SetUp(db) == Effect(db.(tables := db.tables + [VersionTable, ProjectTable]), Failed(DatabaseError), None)
    ensures SetUp(db).outcome.Failed? ==>
      ReadVersion(SetUp(db).db) == Err(DatabaseError) && SetUp(SetUp(db).db) == Effect(SetUp(db).db, Done, None)
  {
    var d1 := db.(tables := db.tables + [VersionTable]);
    assert CreateTable(db, VersionTable) == Ok(d1);
    if !HasTable(db, ProjectTable) {
      var d2 := d1.(tables := d1.tables + [ProjectTable]);
      assert CreateTable(d1, ProjectTable) == Ok(d2);
      assert d2.tables == db.tables + [VersionTable, ProjectTable];
    }
    if SetUp(db).outcome.Failed? {
      assert HasTable(SetUp(db).db, VersionTable);
    }
  }

  // ---------------------------------------------------------------------------
  // Projects

  /** `addProject`: a null project is ignored; otherwise one row is inserted and the
      project receives `max(id)` of the table. */
  function AddProject(db: Db, p: Option<ProjectData>): (e: Effect)
    requires Consistent(db)
    ensures Consistent(e.db)
    ensures p.None? ==> e == Effect(db, Done, None)
    ensures e.outcome.Failed? <==> p.Some? && !HasTable(db, ProjectTable)
    ensures e.outcome.Failed? ==> e.db == db && e.newId.None?
  {
    match p
    case None => Effect(db, Done, None)
    case Some(d) =>
      if !HasTable(db, ProjectTable) then Effect(db, Failed(DatabaseError), None)
      else
        var t := Insert(db.projects, d);
        Effect(db.(projects := t), Done, Some(OrZero(MaxId(t.rows))))
  }

  /** Adding a project appends exactly one row, under an id no row had before, and
      writes that id back; nothing else changes. */
  lemma AddProjectAssignsNewId(db: Db, d: ProjectData)
    requires Consistent(db) && HasTable(db, ProjectTable)
    ensures var e := AddProject(db, Some(d));
      && e.outcome == Done
      && e.newId == Some(db.projects.nextId)
      && db.projects.nextId !in Ids(db.projects.rows)
      && e.db.projects.rows == db.projects.rows + [Row(db.projects.nextId, d)]
      && e.db == db.(projects := e.db.projects)
  {
    InsertedIdIsMax(db.projects, d);
  }

  /** `updateProject`: overwrite title, description and active of the rows with the
      project's id; an unknown id changes nothing. */
  function UpdateProject(db: Db, id: int, d: ProjectData): (e: Effect)
    requires Consistent(db)
    ensures Consistent(e.db)
    ensures e.outcome.Failed? <==> !HasTable(db, ProjectTable)
    ensures e.outcome.Failed? ==> e.db == db
    ensures e.outcome == Done ==> e.db == db.(projects := e.db.projects)
    ensures e.outcome == Done ==> e.db.projects == Table(SetData(db.projects.rows, id, d), db.projects.nextId)
    ensures e.outcome == Done ==> Ids(e.db.projects.rows) == Ids(db.projects.rows)
    ensures id !in Ids(db.projects.rows) ==> e.db == db
  {
    if !HasTable(db, ProjectTable) then Effect(db, Failed(DatabaseError), None)
    else
      SetDataKeepsWf(db.projects, id, d);
      SetDataKeepsIds(db.projects.rows, id, d);
      Effect(db.(projects := Table(SetData(db.projects.rows, id, d), db.projects.nextId)), Done, None)
  }

  /** The activities of projects other than `pid`, in storage order. */
  function OfOtherProjects(rows: seq<Row<ActivityData>>, pid: int): (u: seq<Row<ActivityData>>)
    ensures forall a :: a in u <==> a in rows && a.data.projectId != pid
    ensures Increasing(rows) ==> Increasing(u)
  {
    Retain(rows, (a: Row<ActivityData>) => a.data.projectId != pid)
  }

  /** The active projects, in storage order. */
  function ActiveOnly(rows: seq<Row<ProjectData>>): (u: seq<Row<ProjectData>>)
    ensures forall p :: p in u <==> p in rows && p.data.active
    ensures Increasing(rows) ==> Increasing(u)
  {
    Retain(rows, (p: Row<ProjectData>) => p.data.active)
  }

  /** The projects with id `id`, in storage order. */
  function ProjectsWithId(rows: seq<Row<ProjectData>>, id: int): (u: seq<Row<ProjectData>>)
    ensures forall p :: p in u <==> p in rows && p.id == id
  {
    Retain(rows, (p: Row<ProjectData>) => p.id == id)
  }

  /** `delete from activity where project_id = ?` */
  function DeleteActivitiesOf(db: Db, projectId: int): (r: Result<Db>)
    requires Consistent(db)
    ensures r.Ok? <==> HasTable(db, ActivityTable)
    ensures r.Ok? ==> Consistent(r.value) && r.value == db.(activities := r.value.activities)
    ensures r.Ok? ==> r.value.activities.nextId == db.activities.nextId
    ensures r.Ok? ==> forall a :: a in r.value.activities.rows <==> a in db.activities.rows && a.data.projectId != projectId
  {
    if !HasTable(db, ActivityTable) then Err(DatabaseError)
    else
      Ok(db.(activities := Table(OfOtherProjects(db.activities.rows, projectId), db.activities.nextId)))
  }

  predicate IsReferenced(db: Db, projectId: int) {
    exists a :: a in db.activities.rows && a.data.projectId == projectId
  }

  /** `delete from project where id = ?`, refused by the foreign key while an activity
      still refers to the project. */
  function DeleteProjectRow(db: Db, id: int): (r: Result<Db>)
    requires Consistent(db)
    ensures r.Ok? <==> HasTable(db, ProjectTable) && !IsReferenced(db, id)
    ensures r.Ok? ==> Consistent(r.value)
    ensures r.Ok? ==> r.value == db.(projects := Table(WithoutIds(db.projects.rows, {id}), db.projects.nextId))
  {
    if !HasTable(db, ProjectTable) || IsReferenced(db, id) then Err(DatabaseError)
    else
      var rows := WithoutIds(db.projects.rows, {id});
      var u := db.(projects := Table(rows, db.projects.nextId));
      assert Referenced(u) by {
        forall a | a in u.activities.rows ensures a.data.projectId in Ids(rows) {
          var p :| p in db.projects.rows && p.id == a.data.projectId;
        }
      }
      Ok(u)
  }

  /** `remove(Project)`: a null project is ignored; otherwise the project's activities
      are deleted first and the project row second. */
  function RemoveProject(db: Db, id: Option<int>): (e: Effect)
    requires Consistent(db)
    ensures Consistent(e.db)
    ensures id.None? ==> e == Effect(db, Done, None)
    ensures id.Some? ==> (e.outcome.Failed? <==> !HasTable(db, ActivityTable) || !HasTable(db, ProjectTable))
    ensures e.outcome.Failed? ==> e.outcome == Failed(DatabaseError)
    ensures e.db.projects.nextId == db.projects.nextId && e.db.activities.nextId == db.activities.nextId
    ensures e.db.tables == db.tables && e.db.versions == db.versions
  {
    match id
    case None => Effect(db, Done, None)
    case Some(pid) =>
      match DeleteActivitiesOf(db, pid)
      case Err(x) => Effect(db, Failed(x), None)
      case Ok(d1) =>
        match DeleteProjectRow(d1, pid)
        case Err(x) => Effect(d1, Failed(x), None)
        case Ok(d2) => Effect(d2, Done, None)
  }

  /** Removing a project deletes exactly the project's row and the activities that refer
      to it; afterwards nothing refers to it, and every other row is kept. */
  lemma RemoveProjectCascades(db: Db, pid: int)
    requires Consistent(db) && HasTable(db, ProjectTable) && HasTable(db, ActivityTable)
    ensures var e := RemoveProject(db, Some(pid));
      && e.outcome == Done
      && (forall a :: a in e.db.activities.rows <==> a in db.activities.rows && a.data.projectId != pid)
      && (forall p :: p in e.db.projects.rows <==> p in db.projects.rows && p.id != pid)
      && pid !in Ids(e.db.projects.rows)
      && e.db.tables == db.tables && e.db.versions == db.versions
      && e.db.projects.nextId == db.projects.nextId && e.db.activities.nextId == db.activities.nextId
  {
    var d1 := DeleteActivitiesOf(db, pid).value;
    assert !IsReferenced(d1, pid);
  }

  /** The order of the two deletes matters: while an activity refers to the project,
      deleting the project row first is refused. */
  lemma ProjectFirstIsRefused(db: Db, pid: int)
    requires Consistent(db)
    requires exists a :: a in db.activities.rows && a.data.projectId == pid
    ensures DeleteProjectRow(db, pid).Err?
  {
  }

  /** `select * from project`, in storage order. */
  function AllProjects(db: Db): (r: Result<seq<Row<ProjectData>>>)
    ensures r.Ok? <==> HasTable(db, ProjectTable)
    ensures r.Ok? ==> r.value == db.projects.rows
  {
    if !HasTable(db, ProjectTable) then Err(DatabaseError) else Ok(db.projects.rows)
  }

  /** `select * from project where active = True`, in storage order. */
  function ActiveProjects(db: Db): (r: Result<seq<Row<ProjectData>>>)
    ensures r.Ok? <==> HasTable(db, ProjectTable)
    ensures r.Ok? ==> forall p :: p in r.value <==> p in db.projects.rows && p.data.active
    ensures r.Ok? && Increasing(db.projects.rows) ==> Increasing(r.value)
  {
    if !HasTable(db, ProjectTable) then Err(DatabaseError)
    else Ok(ActiveOnly(db.projects.rows))
  }

  /** `findProjectById`: no query for a null id; otherwise the first row with that id. */
  function FindProject(db: Db, id: Option<int>): (r: Result<Option<Row<ProjectData>>>)
    ensures id.None? ==> r == Ok(None)
    ensures id.Some? && !HasTable(db, ProjectTable) ==> r == Err(DatabaseError)
    ensures id.Some? && HasTable(db, ProjectTable) ==>
      r.Ok? && (r.value.Some? <==> id.value in Ids(db.projects.rows))
    ensures r.Ok? && r.value.Some? ==> r.value.value in db.projects.rows && Some(r.value.value.id) == id
  {
    match id
    case None => Ok(None)
    case Some(x) =>
      if !HasTable(db, ProjectTable) then Err(DatabaseError) else Ok(FirstWithId(db.projects.rows, x))
  }

  function FirstWithId<T>(rows: seq<Row<T>>, id: int): (r: Option<Row<T>>)
    ensures r.Some? ==> r.value in rows && r.value.id == id
    ensures r.None? ==> id !in Ids(rows)
  {
    if rows == [] then None
    else if rows[0].id == id then Some(rows[0])
    else
      FirstWithId(rows[1..], id)
  }

  /** The first row `select * from project where id = ?` returns is the first row with
      that id in storage order. */
  lemma {:induction false} FirstOfSelection(rows: seq<Row<ProjectData>>, id: int)
    ensures var sel := ProjectsWithId(rows, id);
      FirstWithId(rows, id) == if |sel| > 0 then Some(sel[0]) else None
  {
    if rows != [] {
      FirstOfSelection(rows[1..], id);
    }
  }

  // ---------------------------------------------------------------------------
  // Activities

  /** `addActivity`: a null activity is ignored; a null project fails while the
      statement is bound; the insert is refused for an unknown project; otherwise one
      row is inserted and the activity receives `max(id)` of the table. The identity
      value drawn for a row the foreign key refuses is not given back: H2's identity
      sequence is not transactional, so the counter advances and the rows stay. */
  function AddActivity(db: Db, a: Option<ActivityInput>): (e: Effect)
    requires Consistent(db)
    ensures Consistent(e.db)
    ensures e.outcome.Failed? ==> e.newId.None? && e.db.activities.rows == db.activities.rows
    ensures a.Some? && (!HasTable(db, ActivityTable) || a.value.project.None?) ==> e.db == db
    ensures a.Some? && HasTable(db, ActivityTable) && a.value.project.Some? && e.outcome.Failed? ==>
      e.db == db.(activities := Table(db.activities.rows, db.activities.nextId + 1))
    ensures e.outcome == Done && a.Some? ==> e.newId == Some(db.activities.nextId)
    ensures a.None? ==> e == Effect(db, Done, None)
    ensures a.Some? && !HasTable(db, ActivityTable) ==> e.outcome == Failed(DatabaseError)
    ensures a.Some? && HasTable(db, ActivityTable) && a.value.project.None? ==> e.outcome == Failed(NullDereference)
    ensures a.Some? && HasTable(db, ActivityTable) && a.value.project.Some? ==>
      (e.outcome.Failed? <==> a.value.project.value !in Ids(db.projects.rows))
    ensures e.db == db.(activities := e.db.activities)
    ensures |db.activities.rows| <= |e.db.activities.rows| && e.db.activities.rows[..|db.activities.rows|] == db.activities.rows
  {
    match a
    case None => Effect(db, Done, None)
    case Some(x) =>
      if !HasTable(db, ActivityTable) then Effect(db, Failed(DatabaseError), None)
      else if x.project.None? then Effect(db, Failed(NullDereference), None)
      else if x.project.value !in Ids(db.projects.rows) then
        Effect(db.(activities := Table(db.activities.rows, db.activities.nextId + 1)), Failed(DatabaseError), None)
      else
        var d := ActivityData(x.description, x.start, x.end, x.project.value);
        var t := Insert(db.activities, d);
        InsertedIdIsMax(db.activities, d);
        Effect(db.(activities := t), Done, Some(OrZero(MaxId(t.rows))))
  }

  /** The row an accepted activity adds. */
  function NewActivityRow(id: int, x: ActivityInput): Row<ActivityData> {
    Row(id, ActivityData(x.description, x.start, x.end, OrZero(x.project)))
  }

  /** Adding an activity of an existing project appends exactly one row, under an id no
      row had before, and writes that id back; nothing else changes. */
  lemma AddActivityAssignsNewId(db: Db, x: ActivityInput)
    requires Consistent(db) && HasTable(db, ActivityTable)
    requires x.project.Some? && x.project.value in Ids(db.projects.rows)
    ensures var e := AddActivity(db, Some(x));
      && e.outcome == Done
      && e.newId == Some(db.activities.nextId)
      && db.activities.nextId !in Ids(db.activities.rows)
      && e.db.activities.rows == db.activities.rows + [NewActivityRow(db.activities.nextId, x)]
      && e.db.activities.nextId == db.activities.nextId + 1
      && e.db == db.(activities := e.db.activities)
  {
    InsertedIdIsMax(db.activities, ActivityData(x.description, x.start, x.end, x.project.value));
  }

  /** An insert the foreign key refuses still spends an identity value, so the next
      accepted activity receives the counter's value after it. */
  lemma RefusedInsertSpendsId(db: Db, bad: ActivityInput, good: ActivityInput)
    requires Consistent(db) && HasTable(db, ActivityTable)
    requires bad.project.Some? && bad.project.value !in Ids(db.projects.rows)
    requires good.project.Some? && good.project.value in Ids(db.projects.rows)
    ensures AddActivity(db, Some(bad)).outcome == Failed(DatabaseError)
    ensures AddActivity(AddActivity(db, Some(bad)).db, Some(good)).newId == Some(db.activities.nextId + 1)
  {
    var d := AddActivity(db, Some(bad)).db;
    assert d.projects == db.projects && HasTable(d, ActivityTable);
  }


  /** `updateActivity`: overwrite the rows with the activity's id; refused when such a
      row exists and the new project does not. */
  function UpdateActivity(db: Db, id: int, x: ActivityInput): (e: Effect)
    requires Consistent(db)
    ensures Consistent(e.db)
    ensures !HasTable(db, ActivityTable) ==> e.outcome == Failed(DatabaseError)
    ensures HasTable(db, ActivityTable) && x.project.None? ==> e.outcome == Failed(NullDereference)
    ensures HasTable(db, ActivityTable) && x.project.Some? ==>
      (e.outcome.Failed? <==> id in Ids(db.activities.rows) && x.project.value !in Ids(db.projects.rows))
    ensures e.outcome.Failed? ==> e.db == db
    ensures e.outcome == Done ==> e.db == db.(activities := e.db.activities)
    ensures e.outcome == Done ==>
      e.db.activities == Table(SetData(db.activities.rows, id, ActivityData(x.description, x.start, x.end, x.project.value)), db.activities.nextId)
    ensures id !in Ids(db.activities.rows) ==> e.db == db
  {
    if !HasTable(db, ActivityTable) then Effect(db, Failed(DatabaseError), None)
    else if x.project.None? then Effect(db, Failed(NullDereference), None)
    else if id in Ids(db.activities.rows) && x.project.value !in Ids(db.projects.rows) then
      Effect(db, Failed(DatabaseError), None)
    else
      var d := ActivityData(x.description, x.start, x.end, x.project.value);
      UpdateKeepsReferenced(db, id, d);
      SetDataKeepsIds(db.activities.rows, id, d);
      Effect(db.(activities := Table(SetData(db.activities.rows, id, d), db.activities.nextId)), Done, None)
  }

  lemma UpdateKeepsReferenced(db: Db, id: int, d: ActivityData)
    requires Consistent(db)
    requires id in Ids(db.activities.rows) ==> d.projectId in Ids(db.projects.rows)
    ensures Consistent(db.(activities := Table(SetData(db.activities.rows, id, d), db.activities.nextId)))
  {
    var rows := SetData(db.activities.rows, id, d);
    SetDataKeepsWf(db.activities, id, d);
    forall r | r in rows ensures r.data.projectId in Ids(db.projects.rows) {
      var i :| 0 <= i < |rows| && rows[i] == r;
      assert db.activities.rows[i] in db.activities.rows;
    }
  }

  /** `removeActivity`: a null activity is ignored; otherwise the rows with its id go. */
  function RemoveActivity(db: Db, id: Option<int>): (e: Effect)
    requires Consistent(db)
    ensures Consistent(e.db)
    ensures e.outcome.Failed? ==> e.db == db
    ensures id.None? ==> e == Effect(db, Done, None)
    ensures id.Some? ==> (e.outcome.Failed? <==> !HasTable(db, ActivityTable))
    ensures e.outcome.Failed? ==> e.outcome == Failed(DatabaseError)
    ensures e.outcome == Done && id.Some? ==> e.db.activities.rows == WithoutIds(db.activities.rows, {id.value})
    ensures e.outcome == Done && id.Some? ==> id.value !in Ids(e.db.activities.rows)
    ensures e.db == db.(activities := e.db.activities) && e.db.activities.nextId == db.activities.nextId
    ensures forall a :: a in e.db.activities.rows ==> a in db.activities.rows
  {
    match id
    case None => Effect(db, Done, None)
    case Some(x) =>
      if !HasTable(db, ActivityTable) then Effect(db, Failed(DatabaseError), None)
      else
        Effect(db.(activities := Table(WithoutIds(db.activities.rows, {x}), db.activities.nextId)), Done, None)
  }

  // ---------------------------------------------------------------------------
  // Batches: the single-item operation applied to each element in turn, stopping at
  // the first failure; earlier elements keep their effect.

  function AddEach(db: Db, xs: seq<Option<ActivityInput>>): (e: Effect)
    requires Consistent(db)
    ensures Consistent(e.db) && e.newId.None?
    ensures e.db == db.(activities := e.db.activities)
    ensures |db.activities.rows| <= |e.db.activities.rows| && e.db.activities.rows[..|db.activities.rows|] == db.activities.rows
    decreases |xs|
  {
    if xs == [] then Effect(db, Done, None)
    else
      var e := AddActivity(db, xs[0]);
      if e.outcome.Failed? then Effect(e.db, e.outcome, None) else AddEach(e.db, xs[1..])
  }

  function RemoveEach(db: Db, ids: seq<Option<int>>): (e: Effect)
    requires Consistent(db)
    ensures Consistent(e.db) && e.newId.None?
    ensures e.db == db.(activities := e.db.activities) && e.db.activities.nextId == db.activities.nextId
    ensures forall a :: a in e.db.activities.rows ==> a in db.activities.rows
    decreases |ids|
  {
    if ids == [] then Effect(db, Done, None)
    else
      var e := RemoveActivity(db, ids[0]);
      if e.outcome.Failed? then Effect(e.db, e.outcome, None) else RemoveEach(e.db, ids[1..])
  }

  /** `addActivities`: nothing for a null or empty collection, else each in turn. */
  function AddActivities(db: Db, batch: Option<seq<Option<ActivityInput>>>): (e: Effect)
    requires Consistent(db)
    ensures Consistent(e.db)
    ensures batch.None? || |batch.value| == 0 ==> e == Effect(db, Done, None)
  {
    if batch.None? || |batch.value| == 0 then Effect(db, Done, None) else AddEach(db, batch.value)
  }

  /** `removeActivities`: nothing for a null or empty collection, else each in turn. */
  function RemoveActivities(db: Db, batch: Option<seq<Option<int>>>): (e: Effect)
    requires Consistent(db)
    ensures Consistent(e.db)
    ensures batch.None? || |batch.value| == 0 ==> e == Effect(db, Done, None)
  {
    if batch.None? || |batch.value| == 0 then Effect(db, Done, None) else RemoveEach(db, batch.value)
  }

  /** The rows a batch whose every element went through appends: one per non-null
      element, in order, under consecutive ids starting at `next`. */
  function Appended(next: int, xs: seq<Option<ActivityInput>>): (r: seq<Row<ActivityData>>)
    decreases |xs|
  {
    if xs == [] then []
    else if xs[0].None? then Appended(next, xs[1..])
    else [NewActivityRow(next, xs[0].value)] + Appended(next + 1, xs[1..])
  }

  function NonNullCount<T>(xs: seq<Option<T>>): (n: nat)
    ensures n <= |xs|
  {
    if xs == [] then 0 else (if xs[0].Some? then 1 else 0) + NonNullCount(xs[1..])
  }

  lemma AppendedStep(rows: seq<Row<ActivityData>>, n: int, xs: seq<Option<ActivityInput>>)
    requires xs != [] && xs[0].Some?
    ensures rows + [NewActivityRow(n, xs[0].value)] + Appended(n + 1, xs[1..]) == rows + Appended(n, xs)
    ensures NonNullCount(xs) == NonNullCount(xs[1..]) + 1
  {
  }

  /** In a batch that went through, every non-null element had a project. */
  lemma {:induction false} AddEachHadProjects(db: Db, xs: seq<Option<ActivityInput>>)
    requires Consistent(db)
    requires AddEach(db, xs).outcome == Done
    ensures forall i :: 0 <= i < |xs| && xs[i].Some? ==> xs[i].value.project.Some?
    decreases |xs|
  {
    if xs != [] {
      AddEachHadProjects(AddActivity(db, xs[0]).db, xs[1..]);
      assert forall i :: 1 <= i < |xs| ==> xs[i] == xs[1..][i - 1];
    }
  }

  /** A batch that went through appends exactly its non-null elements, each under the
      next value of the counter, and advances the counter by their number; everything
      else is as before. */
  lemma {:induction false} AddEachAppends(db: Db, xs: seq<Option<ActivityInput>>)
    requires Consistent(db)
    requires AddEach(db, xs).outcome == Done
    ensures AddEach(db, xs).db.activities
      == Table(db.activities.rows + Appended(db.activities.nextId, xs), db.activities.nextId + NonNullCount(xs))
    ensures AddEach(db, xs).db == db.(activities := AddEach(db, xs).db.activities)
    decreases |xs|
  {
    if xs != [] {
      var e1 := AddActivity(db, xs[0]);
      assert e1.outcome == Done;
      assert AddEach(db, xs) == AddEach(e1.db, xs[1..]);
      AddEachAppends(e1.db, xs[1..]);
      FirstStep(db, xs[0]);
      FirstAppended(db.activities.rows, db.activities.nextId, xs, e1.db.activities);
    }
  }

  /** The first element's step, in the closed form of `AddEachAppends`. */
  lemma FirstAppended(rows: seq<Row<ActivityData>>, n: int, xs: seq<Option<ActivityInput>>, t: Table<ActivityData>)
    requires xs != []
    requires xs[0].Some? ==> t == Table(rows + [NewActivityRow(n, xs[0].value)], n + 1)
    requires xs[0].None? ==> t == Table(rows, n)
    ensures t.rows + Appended(t.nextId, xs[1..]) == rows + Appended(n, xs)
    ensures t.nextId + NonNullCount(xs[1..]) == n + NonNullCount(xs)
  {
    if xs[0].Some? {
      AppendedStep(rows, n, xs);
    }
  }

  /** An accepted element appends one row under the next id and changes nothing else;
      a null one changes nothing. */
  lemma FirstStep(db: Db, x: Option<ActivityInput>)
    requires Consistent(db) && AddActivity(db, x).outcome == Done
    ensures var t := AddActivity(db, x).db.activities;
      && AddActivity(db, x).db == db.(activities := t)
      && (x.Some? ==> t == Table(db.activities.rows + [NewActivityRow(db.activities.nextId, x.value)], db.activities.nextId + 1))
      && (x.None? ==> t == db.activities)
  {
    if x.Some? {
      assert HasTable(db, ActivityTable) && x.value.project.value in Ids(db.projects.rows);
      AddActivityAssignsNewId(db, x.value);
    }
  }

  /** Processing one more element after a batch that went through is one more step. */
  lemma {:induction false} AddEachSnoc(db: Db, xs: seq<Option<ActivityInput>>, x: Option<ActivityInput>)
    requires Consistent(db)
    requires AddEach(db, xs).outcome == Done
    ensures var e := AddActivity(AddEach(db, xs).db, x);
      AddEach(db, xs + [x]) == Effect(e.db, e.outcome, None)
    decreases |xs|
  {
    if xs != [] {
      assert (xs + [x])[1..] == xs[1..] + [x];
      AddEachSnoc(AddActivity(db, xs[0]).db, xs[1..], x);
    }
  }

  lemma {:induction false} RemoveEachSnoc(db: Db, ids: seq<Option<int>>, x: Option<int>)
    requires Consistent(db)
    requires RemoveEach(db, ids).outcome == Done
    ensures var e := RemoveActivity(RemoveEach(db, ids).db, x);
      RemoveEach(db, ids + [x]) == Effect(e.db, e.outcome, None)
    decreases |ids|
  {
    if ids != [] {
      assert (ids + [x])[1..] == ids[1..] + [x];
      RemoveEachSnoc(RemoveActivity(db, ids[0]).db, ids[1..], x);
    }
  }

  /** A batch stops at its first failure: the elements after it have no effect. */
  lemma {:induction false} AddEachStops(db: Db, xs: seq<Option<ActivityInput>>, ys: seq<Option<ActivityInput>>)
    requires Consistent(db)
    requires AddEach(db, xs).outcome.Failed?
    ensures AddEach(db, xs + ys) == AddEach(db, xs)
    decreases |xs|
  {
    assert (xs + ys)[0] == xs[0];
    if AddActivity(db, xs[0]).outcome == Done {
      assert (xs + ys)[1..] == xs[1..] + ys;
      AddEachStops(AddActivity(db, xs[0]).db, xs[1..], ys);
    }
  }

  lemma {:induction false} RemoveEachStops(db: Db, ids: seq<Option<int>>, ys: seq<Option<int>>)
    requires Consistent(db)
    requires RemoveEach(db, ids).outcome.Failed?
    ensures RemoveEach(db, ids + ys) == RemoveEach(db, ids)
    decreases |ids|
  {
    assert (ids + ys)[0] == ids[0];
    if RemoveActivity(db, ids[0]).outcome == Done {
      assert (ids + ys)[1..] == ids[1..] + ys;
      RemoveEachStops(RemoveActivity(db, ids[0]).db, ids[1..], ys);
    }
  }

  /** The ids a batch names, nulls skipped. */
  function NamedIds(ids: seq<Option<int>>): set<int> {
    set i | 0 <= i < |ids| && ids[i].Some? :: ids[i].value
  }

  /** Removing a batch one by one is one `delete … where id in (…)`: when the activity
      table exists, exactly the rows whose id the batch names go, and the rest stay in
      order. */
  lemma {:induction false} RemoveEachDeletesNamed(db: Db, ids: seq<Option<int>>)
    requires Consistent(db) && HasTable(db, ActivityTable)
    ensures RemoveEach(db, ids).outcome == Done
    ensures RemoveEach(db, ids).db
      == db.(activities := Table(WithoutIds(db.activities.rows, NamedIds(ids)), db.activities.nextId))
    decreases |ids|
  {
    if ids == [] {
      assert NamedIds(ids) == {};
      WithoutNothing(db.activities.rows);
    } else {
      var first: set<int> := if ids[0].Some? then {ids[0].value} else {};
      var d1 := RemoveActivity(db, ids[0]).db;
      RemoveEachDeletesNamed(d1, ids[1..]);
      if ids[0].None? {
        WithoutNothing(db.activities.rows);
      }
      assert d1.activities.rows == WithoutIds(db.activities.rows, first);
      WithoutTwice(db.activities.rows, first, NamedIds(ids[1..]));
      assert NamedIds(ids) == first + NamedIds(ids[1..]) by {
        forall v | v in NamedIds(ids) ensures v in first + NamedIds(ids[1..]) {
          var i :| 0 <= i < |ids| && ids[i].Some? && ids[i].value == v;
          if i > 0 { assert ids[1..][i - 1] == ids[i]; }
        }
        forall v | v in NamedIds(ids[1..]) ensures v in NamedIds(ids) {
          var i :| 0 <= i < |ids[1..]| && ids[1..][i].Some? && ids[1..][i].value == v;
          assert ids[i + 1] == ids[1..][i];
        }
      }
    }
  }

  // ---------------------------------------------------------------------------
  // Queries

  /** `getActivities(String)` after the null condition has become "": the join filtered
      by the condition, ordered by start. */
  function ActivitiesWhere(db: Db, condition: string, cal: Calendar): (r: Result<seq<JoinedRow>>)
    ensures r.Ok? <==> HasTable(db, ActivityTable) && HasTable(db, ProjectTable) && ParseConditions(condition).Some?
    ensures r.Ok? ==> SortedByStart(r.value)
    ensures r.Ok? ==> forall j :: j in r.value <==>
      && j.activity in db.activities.rows && j.project in db.projects.rows && Joins(j)
      && AllHold(ParseConditions(condition).value, j.activity.data, cal)
  {
    if !HasTable(db, ActivityTable) || !HasTable(db, ProjectTable) then Err(DatabaseError)
    else match ParseConditions(condition)
      case None => Err(DatabaseError)
      case Some(cs) => Ok(Activities(db.activities.rows, db.projects.rows, cs, cal))
  }

  /** The query a filter builds returns exactly the joined rows the filter accepts,
      ordered by start. */
  lemma FilteredActivities(db: Db, f: Filter, cal: Calendar)
    requires HasTable(db, ActivityTable) && HasTable(db, ProjectTable)
    ensures var r := ActivitiesWhere(db, Condition(f), cal);
      && r.Ok?
      && SortedByStart(r.value)
      && forall j :: j in r.value <==>
           j.activity in db.activities.rows && j.project in db.projects.rows && Joins(j) && Accepts(f, j.activity.data, cal)
  {
    ParseCondition(f);
    forall j: JoinedRow ensures AllHold(Clauses(f), j.activity.data, cal) <==> Accepts(f, j.activity.data, cal) {
      ClausesMeanFilter(f, j.activity.data, cal);
    }
  }

  /** A filter that constrains nothing asks the same query as no filter at all. */
  lemma UnconstrainedIsUnfiltered(db: Db, f: Filter, cal: Calendar)
    requires ConstrainsNothing(f)
    ensures ActivitiesWhere(db, Condition(f), cal) == ActivitiesWhere(db, "", cal)
  {
  }

  /** `select distinct <part>(activity.start) … order by … desc` */
  function StartPartList(db: Db, part: int -> int): (r: Result<seq<int>>)
    ensures r.Ok? <==> HasTable(db, ActivityTable)
    ensures r.Ok? ==> StrictlyDescending(r.value)
    ensures r.Ok? ==> forall v :: v in r.value <==> exists a :: a in db.activities.rows && part(a.data.start) == v
  {
    if !HasTable(db, ActivityTable) then Err(DatabaseError)
    else
      var parts := StartParts(db.activities.rows, part);
      var r := DistinctDescending(parts);
      assert forall v :: v in r <==> exists a :: a in db.activities.rows && part(a.data.start) == v by {
        forall v ensures v in parts <==> exists a :: a in db.activities.rows && part(a.data.start) == v {
          if v in parts {
            var i :| 0 <= i < |parts| && parts[i] == v;
            assert db.activities.rows[i] in db.activities.rows;
          }
          if exists a :: a in db.activities.rows && part(a.data.start) == v {
            var a :| a in db.activities.rows && part(a.data.start) == v;
            var i :| 0 <= i < |db.activities.rows| && db.activities.rows[i] == a;
            assert parts[i] == v;
          }
        }
      }
      Ok(r)
  }
}
