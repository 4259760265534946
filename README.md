# Baralga persistence layer in Dafny

Baralga is a desktop time tracker. Its projects and the activities booked on them are
stored in an embedded H2 database, and `BaralgaDAO` is the object that talks to it. This
project models that data-access object and proves what its operations do:

- `getActivities(Filter)` translates a filter into a condition. The filter has an optional
  project and an optional day of week, week of year, month and year. The condition is
  text appended to the `where` clause of the activity query, and it is modelled as a pure
  function (`FilterQuery.Condition`). Its contract and three lemmas relate the text to the filter:
  - the database reads it back as exactly the filter's clauses;
  - it is empty exactly when the filter constrains nothing;
  - the rows it selects are exactly the rows the filter accepts.

  The day conversion `(day + 1) % 7` is reproduced with Java's 32-bit `int` wrap-around
  and its truncating remainder. A filter on day 6 therefore compares against 0.
- The database is a value (`Store.Db`):
  - the table names that `SHOW TABLES` lists;
  - the `db_version`, `project` and `activity` tables, each with its H2 `identity`
    counter;
  - the foreign key from `activity.project_id` to `project.id`.

  Every statement the object issues is a function on that value. An `SQLException`
  becomes `Failed(DatabaseError)`, and a null project dereferenced while binding becomes
  `Failed(NullDereference)`.
- The data-access object itself is a class (`Dao.BaralgaDAO`):
  - its fields are the tables and `databaseVersion`;
  - its methods run the statements of `BaralgaDAO.java` in order, including the table-listing
    search loop of `updateDatabase` and the loops of the batch operations;
  - each method is proved to leave exactly the state the corresponding `Store` function
    describes, and to write the new id back onto the project or activity passed in.

The modules, in dependency order:

| Module | Contents |
|---|---|
| `Outcomes` | Results and failures |
| `Decimal` | Java's decimal text of numbers |
| `Tables` | Identity tables |
| `Schema` | Row contents and table names |
| `FilterQuery` | The translator |
| `Queries` | The select statements |
| `Store` | The operations on the database value |
| `Dao` | The class |

## Model

| member | source | states |
|---|---|---|
| Tables.Insert | application/trunk/baralga-core/src/main/java/org/remast/baralga/gui/model/BaralgaDAO.java:182-187 | An insert into an identity table keeps the identity invariant and appends one row with the given data. The new id is strictly above every id already in the table, so it was never used. |
| Tables.MaxId | application/trunk/baralga-core/src/main/java/org/remast/baralga/gui/model/BaralgaDAO.java:190-194 | `select max(id)` is SQL NULL exactly on an empty table. Otherwise it is an id of the table that bounds every id. |
| Tables.InsertedIdIsMax | application/trunk/baralga-core/src/main/java/org/remast/baralga/gui/model/BaralgaDAO.java:187-194 | After an insert, `max(id)` of the table is the id the insert just handed out. |
| Tables.SetDataKeepsWf | application/trunk/baralga-core/src/main/java/org/remast/baralga/gui/model/BaralgaDAO.java:386-392 | An update by id keeps the identity invariant and the set of ids. |
| Tables.SetData | application/trunk/baralga-core/src/main/java/org/remast/baralga/gui/model/BaralgaDAO.java:386-392 | `update … where id = ?` keeps every row and its id in place. Exactly the rows with that id take the new data, and every other row keeps its data. |
| Tables.WithoutTwice | application/trunk/baralga-core/src/main/java/org/remast/baralga/gui/model/BaralgaDAO.java:365-373 | Deleting one set of ids and then another deletes the union of the two sets. |
| Tables.WithoutIds | application/trunk/baralga-core/src/main/java/org/remast/baralga/gui/model/BaralgaDAO.java:337-340 | `delete … where id …` keeps exactly the rows whose id is not named, and keeps ids increasing. |
| FilterQuery.DayOfWeekValueRange | application/trunk/baralga-core/src/main/java/org/remast/baralga/gui/model/BaralgaDAO.java:538-541 | For `0 <= day < Integer.MAX_VALUE` the compared day lies in 0..6. Negative days give values in -6..0, and `Integer.MAX_VALUE` overflows to -2. |
| FilterQuery.DayOfWeekValue | application/trunk/baralga-core/src/main/java/org/remast/baralga/gui/model/BaralgaDAO.java:540 | The day compared is `(day + 1) % 7` in Java `int` arithmetic. It always lies in -6..6, and for `0 <= day < Integer.MAX_VALUE` it is the mathematical `(day + 1) mod 7`. |
| FilterQuery.DayOfWeekValueExamples | application/trunk/baralga-core/src/main/java/org/remast/baralga/gui/model/BaralgaDAO.java:540 | 6 becomes 0, 0 becomes 1, 1 becomes 2 and -1 becomes 0. |
| FilterQuery.Part | application/trunk/baralga-core/src/main/java/org/remast/baralga/gui/model/BaralgaDAO.java:532-557 | Each field contributes at most one clause, on that field. The clause is there exactly when the field constrains its column, and it carries the constrained value. The project constrains only when present with an id > 0. |
| FilterQuery.ClausesExact | application/trunk/baralga-core/src/main/java/org/remast/baralga/gui/model/BaralgaDAO.java:529-557 | A clause on a field with a value is in the filter's clause list exactly when that field constrains its column to that value. |
| FilterQuery.ClausesOrdered | application/trunk/baralga-core/src/main/java/org/remast/baralga/gui/model/BaralgaDAO.java:531-557 | There are at most five clauses, at most one per field, in the order project, day of week, week, month, year. |
| FilterQuery.ClausesEmptyIff | application/trunk/baralga-core/src/main/java/org/remast/baralga/gui/model/BaralgaDAO.java:529-557 | The clause list is empty exactly when no field constrains anything. |
| FilterQuery.ConditionRendersClauses | application/trunk/baralga-core/src/main/java/org/remast/baralga/gui/model/BaralgaDAO.java:529-559 | The appended text is the filter's clauses rendered one after the other, in field order. |
| FilterQuery.Condition | application/trunk/baralga-core/src/main/java/org/remast/baralga/gui/model/BaralgaDAO.java:529-559 | The condition text the chain of appends builds is the empty string exactly when the project does not constrain and all four date fields are null. |
| FilterQuery.ParseRender | application/trunk/baralga-core/src/main/java/org/remast/baralga/gui/model/BaralgaDAO.java:533-556 | Reading rendered clauses back yields the same clauses. |
| FilterQuery.ParseCondition | application/trunk/baralga-core/src/main/java/org/remast/baralga/gui/model/BaralgaDAO.java:529-559 | The database reads the condition a filter builds as exactly that filter's clauses. So two filters give the same text only when they constrain the same columns to the same values. |
| FilterQuery.ClausesMeanFilter | application/trunk/baralga-core/src/main/java/org/remast/baralga/gui/model/BaralgaDAO.java:529-559 | All clauses of a filter hold of an activity exactly when the filter accepts it field by field. |
| FilterQuery.DaySixMatchesNothing | application/trunk/baralga-core/src/main/java/org/remast/baralga/gui/model/BaralgaDAO.java:540-541 | If the engine numbers days 1 to 7, a filter on day 6 compares against 0 and accepts no activity. |
| Decimal.ParseIntToString | application/trunk/baralga-core/src/main/java/org/remast/baralga/gui/model/BaralgaDAO.java:533-556 | Reading back the decimal text Java writes for a number yields that number and leaves the text after it untouched. |
| Schema.EqualsIgnoreCase | application/trunk/baralga-core/src/main/java/org/remast/baralga/gui/model/BaralgaDAO.java:116 | The name comparison of the listing search: equal names match, and matching names have the same length and agree exactly on every character that is not a letter. |
| Queries.Join | application/trunk/baralga-core/src/main/java/org/remast/baralga/gui/model/BaralgaDAO.java:271 | The join holds exactly the pairs of an activity row and a project row with `activity.project_id = project.id`. |
| Queries.Select | application/trunk/baralga-core/src/main/java/org/remast/baralga/gui/model/BaralgaDAO.java:271 | Filtering keeps exactly the joined rows whose activity satisfies every clause, and adds no row. |
| Queries.SortByStart | application/trunk/baralga-core/src/main/java/org/remast/baralga/gui/model/BaralgaDAO.java:271 | `order by start asc`: the result is sorted by start and is a permutation of the input. |
| Queries.Activities | application/trunk/baralga-core/src/main/java/org/remast/baralga/gui/model/BaralgaDAO.java:271 | The activity query's answer is sorted by start. It holds exactly the joined rows that satisfy the clauses, each as often as the unordered selection holds it. |
| Queries.DistinctDescending | application/trunk/baralga-core/src/main/java/org/remast/baralga/gui/model/BaralgaDAO.java:467-507 | `select distinct … order by … desc`: the result strictly descends and holds exactly the input's values. |
| Store.SetUp | application/trunk/baralga-core/src/main/java/org/remast/baralga/gui/model/BaralgaDAO.java:109-132 | Schema set-up keeps the database consistent and changes nothing when the listing has `db_version`. Otherwise it fails, with a database error, exactly when `PROJECT` or `ACTIVITY` already exists, and the version table it created stays. On success it leaves the three tables and the single reference row. |
| Store.VersionTableListed | application/trunk/baralga-core/src/main/java/org/remast/baralga/gui/model/BaralgaDAO.java:113-120 | The listing search: the listing holds `db_version` up to case. The name H2 lists for the version table is one such name. |
| Store.CreateTable | application/trunk/baralga-core/src/main/java/org/remast/baralga/gui/model/BaralgaDAO.java:124-126 | `create table` fails exactly when the table exists. Otherwise it adds that one name to the listing, keeps the others in order, and changes no rows. |
| Store.ReadVersion | application/trunk/baralga-core/src/main/java/org/remast/baralga/gui/model/BaralgaDAO.java:135-141 | The version read succeeds exactly when the version table exists and holds at least one row, all with one description. That is when H2 can evaluate the ungrouped `description` beside `max(version)`. Every failure is a database error. On success the value is the largest stored version, which is one of them. |
| Store.SetUpStopsAtExistingTable | application/trunk/baralga-core/src/main/java/org/remast/baralga/gui/model/BaralgaDAO.java:122-141 | Set-up stops at the first `create table` whose table exists, and the tables created before it stay: with `PROJECT` present only `DB_VERSION` is added, and with only `ACTIVITY` present `DB_VERSION` and `PROJECT` are. After such a failure every later set-up skips the schema, and the version read fails on the empty `db_version`, so the database never recovers by restarting. |
| Store.MaxVersion | application/trunk/baralga-core/src/main/java/org/remast/baralga/gui/model/BaralgaDAO.java:135 | `max(version)` is NULL exactly on an empty table. Otherwise it is a stored version that bounds every stored version. |
| Store.SetUpOnEmptyDatabase | application/trunk/baralga-core/src/main/java/org/remast/baralga/gui/model/BaralgaDAO.java:109-141 | On a database without the three tables, set-up adds exactly `DB_VERSION`, `PROJECT` and `ACTIVITY`. It leaves one version row (id 1, version 1, "Initial database setup.") and two empty tables, and the version read afterwards is 1. |
| Store.SetUpOnExistingDatabase | application/trunk/baralga-core/src/main/java/org/remast/baralga/gui/model/BaralgaDAO.java:109-141 | When `db_version` exists, set-up changes nothing. The version read succeeds exactly when that table has rows sharing one description, and then gives the largest stored version, which is one of them. |
| Store.AddProject | application/trunk/baralga-core/src/main/java/org/remast/baralga/gui/model/BaralgaDAO.java:175-199 | Adding a project keeps the database consistent. A null project is a no-op. It fails exactly when the project table is missing, and a failure changes nothing and writes no id back. |
| Store.AddProjectAssignsNewId | application/trunk/baralga-core/src/main/java/org/remast/baralga/gui/model/BaralgaDAO.java:175-194 | A non-null project is added by appending exactly one row with its data, under an id no row had. That id is written back to the project, and nothing else in the database changes. |
| Store.UpdateProject | application/trunk/baralga-core/src/main/java/org/remast/baralga/gui/model/BaralgaDAO.java:379-397 | An update by id keeps the database consistent. It fails exactly when the project table is missing, and a failure changes nothing. On success the project table is `Tables.SetData` of the old rows: rows with the id take the new data and nothing else changes. An unknown id changes nothing at all. |
| Store.DeleteActivitiesOf | application/trunk/baralga-core/src/main/java/org/remast/baralga/gui/model/BaralgaDAO.java:157-159 | `delete from activity where project_id = ?` fails exactly when the activity table is missing. Otherwise it keeps exactly the activities of other projects and the counter, keeps the database consistent, and touches nothing else. |
| Store.DeleteProjectRow | application/trunk/baralga-core/src/main/java/org/remast/baralga/gui/model/BaralgaDAO.java:162-164 | Deleting a project row is refused exactly when the project table is missing or an activity still refers to the project. Otherwise exactly that row goes, the identity counter is kept and the foreign key holds. |
| Store.RemoveProject | application/trunk/baralga-core/src/main/java/org/remast/baralga/gui/model/BaralgaDAO.java:150-169 | Removing a project keeps the database consistent, and a null project is a no-op. A non-null project fails, with a database error, exactly when the activity or the project table is missing. Both identity counters, the table list and the version rows are always kept, so a removed id is never handed out again. |
| Store.RemoveProjectCascades | application/trunk/baralga-core/src/main/java/org/remast/baralga/gui/model/BaralgaDAO.java:150-164 | Removing a non-null project deletes exactly the activities that refer to it and exactly its own row. Afterwards its id is gone, and every other project row, activity row, table, version row and both identity counters are kept. |
| Store.ProjectFirstIsRefused | application/trunk/baralga-core/src/main/java/org/remast/baralga/gui/model/BaralgaDAO.java:156-164 | The order of the two deletes matters: deleting a project that an activity still refers to is refused by the foreign key. |
| Store.AllProjects | application/trunk/baralga-core/src/main/java/org/remast/baralga/gui/model/BaralgaDAO.java:230-249 | `getAllProjects` fails exactly when the project table is missing. Otherwise it returns every project row in storage order. |
| Store.ActiveProjects | application/trunk/baralga-core/src/main/java/org/remast/baralga/gui/model/BaralgaDAO.java:205-224 | `getActiveProjects` fails exactly when the project table is missing. Otherwise it returns exactly the active rows, in increasing id order. |
| Store.FindProject | application/trunk/baralga-core/src/main/java/org/remast/baralga/gui/model/BaralgaDAO.java:436-457 | A null id gives null without a query, and a missing table gives a database error. Otherwise a project is found exactly when some row has the id, and the project returned is a stored row with that id. |
| Store.FirstOfSelection | application/trunk/baralga-core/src/main/java/org/remast/baralga/gui/model/BaralgaDAO.java:442-450 | The project returned is the first row `select * from project where id = ?` yields. |
| Store.AddActivity | application/trunk/baralga-core/src/main/java/org/remast/baralga/gui/model/BaralgaDAO.java:294-325 | Adding an activity keeps the database consistent and changes only the activity table, whose old rows stay as a prefix. A missing activity table is a database error. A missing project is a null dereference. With a project, it fails exactly when the project id is not in the project table. No failure changes the rows or writes an id back. A missing table or project changes nothing. A foreign-key refusal advances the identity counter by one. A success writes back the counter's next value, and a null activity is a no-op. |
| Store.AddActivityAssignsNewId | application/trunk/baralga-core/src/main/java/org/remast/baralga/gui/model/BaralgaDAO.java:294-320 | Adding an activity of an existing project appends exactly one row with its data under an id no row had, and advances the counter by one. That id is written back, and nothing else changes. |
| Store.RefusedInsertSpendsId | application/trunk/baralga-core/src/main/java/org/remast/baralga/gui/model/BaralgaDAO.java:313 | An insert the foreign key refuses is a database error that still spends one identity value. The next accepted activity therefore receives the id after the one the counter held before the refusal. |
| Store.UpdateActivity | application/trunk/baralga-core/src/main/java/org/remast/baralga/gui/model/BaralgaDAO.java:403-429 | An update by id keeps the database, foreign key included, consistent. A missing activity table fails with a database error before the project is read, and then a null project fails as a null dereference. Otherwise the update is refused exactly when a row has the id and the new project does not exist. A failure changes nothing. On success the activity table is `Tables.SetData` with the bound values. An unknown id changes nothing at all. |
| Store.UpdateKeepsReferenced | application/trunk/baralga-core/src/main/java/org/remast/baralga/gui/model/BaralgaDAO.java:410-423 | Overwriting the rows with an id keeps the foreign key whenever no row has the id or the new project exists. |
| Store.RemoveActivity | application/trunk/baralga-core/src/main/java/org/remast/baralga/gui/model/BaralgaDAO.java:331-345 | A null activity is a no-op. A non-null one fails, with a database error, exactly when the activity table is missing, and then nothing changes. Otherwise the surviving rows are exactly the old rows without that id. Only the activity table changes, its counter is kept and no row is added. |
| Store.AddActivities | application/trunk/baralga-core/src/main/java/org/remast/baralga/gui/model/BaralgaDAO.java:351-359 | `addActivities` keeps the database consistent. A null or empty collection is a no-op, and any other collection goes through `Store.AddEach`. |
| Store.RemoveActivities | application/trunk/baralga-core/src/main/java/org/remast/baralga/gui/model/BaralgaDAO.java:365-373 | `removeActivities` keeps the database consistent. A null or empty collection is a no-op, and any other collection goes through `Store.RemoveEach`. |
| Store.AddEach | application/trunk/baralga-core/src/main/java/org/remast/baralga/gui/model/BaralgaDAO.java:356-358 | The loop of `addActivities`, one `addActivity` per element, stopping at the first failure. It keeps the database consistent, changes only the activity table, and keeps the old activity rows as a prefix. |
| Store.RemoveEach | application/trunk/baralga-core/src/main/java/org/remast/baralga/gui/model/BaralgaDAO.java:370-372 | The loop of `removeActivities`, one `removeActivity` per element, stopping at the first failure. It keeps the database consistent, changes only the activity table, keeps its counter, and adds no row. |
| Store.AddEachAppends | application/trunk/baralga-core/src/main/java/org/remast/baralga/gui/model/BaralgaDAO.java:351-359 | A batch that went through appends one row per non-null element, in order, under consecutive ids. It advances the counter by the number of those elements, and the rest of the database is unchanged. |
| Store.AddEachHadProjects | application/trunk/baralga-core/src/main/java/org/remast/baralga/gui/model/BaralgaDAO.java:311-358 | In a batch that went through, every non-null activity had a project. |
| Store.AddEachStops | application/trunk/baralga-core/src/main/java/org/remast/baralga/gui/model/BaralgaDAO.java:356-358 | A batch stops at its first failure: the elements after it have no effect. |
| Store.RemoveEachStops | application/trunk/baralga-core/src/main/java/org/remast/baralga/gui/model/BaralgaDAO.java:370-372 | A removal batch stops at its first failure: the elements after it have no effect. |
| Store.RemoveEachDeletesNamed | application/trunk/baralga-core/src/main/java/org/remast/baralga/gui/model/BaralgaDAO.java:365-373 | When the activity table exists, removing a batch one element at a time always succeeds. It equals one delete of exactly the ids the batch names, with the remaining rows kept in order. |
| Store.ActivitiesWhere | application/trunk/baralga-core/src/main/java/org/remast/baralga/gui/model/BaralgaDAO.java:265-288 | The activity query fails exactly when a table is missing or the condition is outside what the database can read. Otherwise its rows are sorted by start and are exactly the joins of an activity row with its project row whose activity satisfies every parsed clause. |
| Store.FilteredActivities | application/trunk/baralga-core/src/main/java/org/remast/baralga/gui/model/BaralgaDAO.java:524-560 | The query a filter builds succeeds and returns, ordered by start, exactly the joined rows whose activity the filter accepts. |
| Store.UnconstrainedIsUnfiltered | application/trunk/baralga-core/src/main/java/org/remast/baralga/gui/model/BaralgaDAO.java:524-527 | A filter that constrains nothing asks the same query as `getActivities()`. |
| Store.StartPartList | application/trunk/baralga-core/src/main/java/org/remast/baralga/gui/model/BaralgaDAO.java:462-517 | The month, year and week lists fail exactly when the activity table is missing. Otherwise each strictly descends and holds exactly the values the date part takes on the stored activities' starts. |
| Dao.BaralgaDAO.constructor | application/trunk/baralga-core/src/main/java/org/remast/baralga/gui/model/BaralgaDAO.java:41-77 | A data-access object connected to a consistent database holds exactly that database. |
| Dao.BaralgaDAO.UpdateDatabase | application/trunk/baralga-core/src/main/java/org/remast/baralga/gui/model/BaralgaDAO.java:109-144 | The table-listing search loop and the set-up statements leave exactly the state `Store.SetUp` describes. On success the version field becomes the version read. On failure it keeps its old value and the failure is reported. |
| Dao.BaralgaDAO.VersionTableListed | application/trunk/baralga-core/src/main/java/org/remast/baralga/gui/model/BaralgaDAO.java:113-120 | The `while` loop over the listing, which breaks at the first match, answers exactly `Store.VersionTableListed`. |
| Dao.BaralgaDAO.CreateSchema | application/trunk/baralga-core/src/main/java/org/remast/baralga/gui/model/BaralgaDAO.java:122-132 | The three `create table` statements and the insert leave exactly the state and outcome of `Store.SetUp`, stopping at the first failing statement. |
| Dao.BaralgaDAO.Remove | application/trunk/baralga-core/src/main/java/org/remast/baralga/gui/model/BaralgaDAO.java:150-169 | Removing a project leaves exactly the state and outcome of `Store.RemoveProject`, with the database kept consistent. |
| Dao.BaralgaDAO.AddProject | application/trunk/baralga-core/src/main/java/org/remast/baralga/gui/model/BaralgaDAO.java:175-199 | The new state and outcome are those of `Store.AddProject`. When an id was assigned the project now carries it, otherwise its id is unchanged. Its title, description and active flag are untouched. |
| Dao.BaralgaDAO.GetActiveProjects | application/trunk/baralga-core/src/main/java/org/remast/baralga/gui/model/BaralgaDAO.java:205-224 | The copying loop returns exactly `Store.ActiveProjects`. Setting the copy active is the identity on active rows. |
| Dao.BaralgaDAO.GetAllProjects | application/trunk/baralga-core/src/main/java/org/remast/baralga/gui/model/BaralgaDAO.java:230-249 | The copying loop returns exactly `Store.AllProjects`. |
| Dao.ReadAll | application/trunk/baralga-core/src/main/java/org/remast/baralga/gui/model/BaralgaDAO.java:236-241 | The `while (rs.next())` copy loop returns exactly the rows of the result set, in order. |
| Dao.BaralgaDAO.GetActivitiesWhere | application/trunk/baralga-core/src/main/java/org/remast/baralga/gui/model/BaralgaDAO.java:265-288 | A null condition is treated as the empty one, and the copying loop returns exactly `Store.ActivitiesWhere`. |
| Dao.BaralgaDAO.GetActivities | application/trunk/baralga-core/src/main/java/org/remast/baralga/gui/model/BaralgaDAO.java:255-258 | `getActivities()` asks with the empty condition. It fails exactly when a table is missing, and otherwise returns every joined activity ordered by start. |
| Dao.BaralgaDAO.GetActivitiesMatching | application/trunk/baralga-core/src/main/java/org/remast/baralga/gui/model/BaralgaDAO.java:524-560 | A null filter gives the same answer as `getActivities()`. Any other filter gives the answer to its condition: exactly the joined rows it accepts, sorted by start, failing exactly when a table is missing. |
| Dao.BaralgaDAO.BuildCondition | application/trunk/baralga-core/src/main/java/org/remast/baralga/gui/model/BaralgaDAO.java:529-559 | The chain of conditional appends builds `FilterQuery.Condition`, whose meaning the lemmas above state. |
| Dao.BaralgaDAO.AddActivity | application/trunk/baralga-core/src/main/java/org/remast/baralga/gui/model/BaralgaDAO.java:294-325 | The new state and outcome are those of `Store.AddActivity`. The activity carries the new id when one was assigned, and keeps its old id otherwise. |
| Dao.BaralgaDAO.RemoveActivity | application/trunk/baralga-core/src/main/java/org/remast/baralga/gui/model/BaralgaDAO.java:331-345 | The new state and outcome are those of `Store.RemoveActivity` for the activity's id. |
| Dao.BaralgaDAO.AddActivities | application/trunk/baralga-core/src/main/java/org/remast/baralga/gui/model/BaralgaDAO.java:351-359 | The new state and outcome are those of `Store.AddActivities` on the activities as bound before the call. When the batch went through, each activity carries the id its last occurrence was inserted under: the counter's old value plus the number of non-null elements before it. When it failed at some element, the elements before it carry those ids, and every activity not among them keeps its old id. |
| Dao.BaralgaDAO.AddInTurn | application/trunk/baralga-core/src/main/java/org/remast/baralga/gui/model/BaralgaDAO.java:356-358 | The `for` loop over the batch leaves the state and outcome of `Store.AddEach`. It writes the consecutive ids back, and on a failure it names the failing position, before which ids are written and from which on ids are unchanged. |
| Dao.BaralgaDAO.AddTurn | application/trunk/baralga-core/src/main/java/org/remast/baralga/gui/model/BaralgaDAO.java:357 | One turn of the loop either carries the batch one element further, with that element's id written and the later elements' ids untouched, or stops it with the state and outcome of `Store.AddEach` over the whole batch. |
| Dao.BaralgaDAO.AddStep | application/trunk/baralga-core/src/main/java/org/remast/baralga/gui/model/BaralgaDAO.java:357 | One turn of the loop adds one more element. A non-null element that goes through receives the next value of the counter, and one that fails keeps its id. |
| Dao.BaralgaDAO.RemoveActivities | application/trunk/baralga-core/src/main/java/org/remast/baralga/gui/model/BaralgaDAO.java:365-373 | The new state and outcome are those of `Store.RemoveActivities` on the ids of the batch. |
| Dao.BaralgaDAO.RemoveInTurn | application/trunk/baralga-core/src/main/java/org/remast/baralga/gui/model/BaralgaDAO.java:370-372 | The `for` loop over the batch leaves the state and outcome of `Store.RemoveEach`. |
| Dao.BaralgaDAO.RemoveStep | application/trunk/baralga-core/src/main/java/org/remast/baralga/gui/model/BaralgaDAO.java:371 | One turn of the loop removes one more element: on success the state is that of `Store.RemoveEach` on one more id, and on failure the state and outcome are those of the batch stopped at that element. |
| Dao.BaralgaDAO.UpdateProject | application/trunk/baralga-core/src/main/java/org/remast/baralga/gui/model/BaralgaDAO.java:379-397 | A null project changes nothing. Any other project leaves the state and outcome of `Store.UpdateProject` for its id and data. |
| Dao.BaralgaDAO.UpdateActivity | application/trunk/baralga-core/src/main/java/org/remast/baralga/gui/model/BaralgaDAO.java:403-429 | A null activity changes nothing. Any other activity leaves the state and outcome of `Store.UpdateActivity` for its id and bound values. |
| Dao.BaralgaDAO.FindProjectById | application/trunk/baralga-core/src/main/java/org/remast/baralga/gui/model/BaralgaDAO.java:436-457 | The answer is exactly `Store.FindProject`. |
| Dao.BaralgaDAO.GetMonthList | application/trunk/baralga-core/src/main/java/org/remast/baralga/gui/model/BaralgaDAO.java:462-477 | The answer is exactly `Store.StartPartList` for the engine's `month` function. |
| Dao.BaralgaDAO.GetYearList | application/trunk/baralga-core/src/main/java/org/remast/baralga/gui/model/BaralgaDAO.java:482-497 | The answer is exactly `Store.StartPartList` for the engine's `year` function. |
| Dao.BaralgaDAO.GetWeekOfYearList | application/trunk/baralga-core/src/main/java/org/remast/baralga/gui/model/BaralgaDAO.java:502-517 | The answer is exactly `Store.StartPartList` for the engine's `week` function. |

## Left out

- `init` and `close` (lines 83-102) are not modelled. They hold the connection lifecycle: the driver, the H2 URL and the closing of the connection. A `Dao.BaralgaDAO` is built directly on a database value instead.
- `gatherStatistics` (lines 565-601) is not modelled. It counts both tables, reads the earliest and latest activity start, and only logs what it finds, using Joda `Duration` and `PeriodFormat`.
- Logging and the localized message of the rethrown `RuntimeException` are not modelled. Every failure is one abstract `DatabaseError`.
- The calendar conventions of H2's `day_of_week`, `week`, `month` and `year` are not modelled, because their numbering lives inside the engine. They are function values in `FilterQuery.Calendar`, fixed per data-access object.
- Timestamps and `DateTime` values are integers, and their conversions are not modelled. Null strings and null timestamps inside an entity are not represented.
- Store.ActivitiesWhere: a condition string that is not a run of the clauses the translator emits is always `DatabaseError`. In `BaralgaDAO.java`, arbitrary SQL can be passed to `getActivities(String)`.
- The model returns result rows as values rather than as freshly allocated `Project` and `ProjectActivity` objects, and the lists are not read-only views.
- Ids are unbounded integers, so overflow of the 64-bit identity columns is not modelled.
- The transaction and the explicit `commit` of `updateDatabase` are not modelled: every statement takes effect at once.
- The value of the `description` column read beside `max(version)` is only logged and is not modelled. Whether H2 can evaluate that ungrouped column is modelled, by `Store.OneDescription`.
- The `created_at` column and the column types are not modelled. The table names are modelled only as the upper-case names H2 lists for the three tables; other spellings and quoted names are not.
- Schema.EqualsIgnoreCase: folds only the ASCII letters a-z. Java's `String.equalsIgnoreCase` also folds other letters, so a listed name that matches `db_version` only through a non-ASCII case mapping (such as a dotless ı for i) is found by the Java class and not by the model.
- Queries.SortByStart: fixes one order among activities that start at the same time (their join order), and Queries.Join fixes the join order as activity-major storage order. SQL's `order by start asc` and H2's join promise neither, so the model's answers are one of the orders the database may return.
- `SHOW TABLES` in the model lists the three upper-case names and whatever other tables the database holds.
- Store.NewActivityRow writes project id 0 for an activity without a project. That case only fills the signature: such an activity fails before any row is written (`Store.AddEachHadProjects`).
