/** The three tables of the Baralga database and the values their rows hold
    (`create table` statements for db_version, project and activity). */
module Schema {

  /** A `project` row without its id: title, description, active. */
  datatype ProjectData = ProjectData(title: string, description: string, active: bool)

  /** An `activity` row without its id. Timestamps are milliseconds since the epoch. */
  datatype ActivityData = ActivityData(description: string, start: int, end: int, projectId: int)

  /** A `db_version` row without its id; `created_at` is never written and is left out. */
  datatype VersionData = VersionData(version: int, description: string)

  // H2 folds unquoted identifiers to upper case, so the tables are listed under these names.
  const VersionTable: string := "DB_VERSION"
  const ProjectTable: string := "PROJECT"
  const ActivityTable: string := "ACTIVITY"

  /** The name the schema check looks for in the table listing. */
  const VersionTableName: string := "db_version"

  /** The reference row written when the database is first set up. */
  const InitialVersion: VersionData := VersionData(1, "Initial database setup.")

  function UpperCase(c: char): char {
    if 'a' <= c <= 'z' then (c as int - 32) as char else c
  }

  predicate IsLetter(c: char) {
    'a' <= c <= 'z' || 'A' <= c <= 'Z'
  }

  /** `String.equalsIgnoreCase`, for ASCII letters: equal strings match, and matching
      strings have the same length and agree exactly on every character that is not
      a letter. */
  predicate EqualsIgnoreCase(a: string, b: string): (r: bool)
    ensures a == b ==> r
    ensures r ==> |a| == |b| && forall i :: 0 <= i < |a| && !IsLetter(a[i]) ==> a[i] == b[i]
  {
    |a| == |b| && forall i :: 0 <= i < |a| ==> UpperCase(a[i]) == UpperCase(b[i])
  }
}
