/** The filter-to-condition translator of `getActivities(Filter)`: a filter with an
    optional project and optional day-of-week, week-of-year, month and year becomes the
    text that is appended to the `where` clause of the activity query, one
    `" and …"` clause per constrained field, in a fixed order. */
module FilterQuery {
  import opened Outcomes
  import opened Decimal
  import opened Schema

  type Int32 = x: int | -0x8000_0000 <= x < 0x8000_0000

  /** A filter: the id of its project (None when the project is null) and the boxed
      `Integer` date fields (None when null). */
  datatype Filter = Filter(
    project: Option<int>,
    day: Option<Int32>,
    weekOfYear: Option<Int32>,
    month: Option<Int32>,
    year: Option<Int32>)

  /** The filter every field of which is null. */
  const Unconstrained: Filter := Filter(None, None, None, None, None)

  /** The project only constrains the query when it is present with a positive id. */
  predicate ConstrainsProject(f: Filter) {
    f.project.Some? && f.project.value > 0
  }

  predicate ConstrainsNothing(f: Filter) {
    !ConstrainsProject(f) && f.day.None? && f.weekOfYear.None? && f.month.None? && f.year.None?
  }

  // ---------------------------------------------------------------------------
  // Java int arithmetic of the day-of-week conversion

  /** Two's-complement wrap-around of a 32-bit `int` result. */
  function Wrap32(x: int): Int32 {
    (x + 0x8000_0000) % 0x1_0000_0000 - 0x8000_0000
  }

  /** Java's `%`: the remainder takes the sign of the dividend. */
  function JavaRem(a: int, b: int): int
    requires b > 0
  {
    if a >= 0 then a % b else -((-a) % b)
  }

  /** `(filter.getDay() + 1) % 7`, evaluated in Java `int` arithmetic. */
  function DayOfWeekValue(day: Int32): (v: int)
    ensures -6 <= v <= 6
    ensures 0 <= day < 0x7FFF_FFFF ==> v == (day + 1) % 7
  {
    JavaRem(Wrap32(day + 1), 7)
  }

  /** For a non-negative day that does not overflow, the compared value lies in 0..6.
      Negative days give values in -6..0 and the largest `int` overflows to -2. */
  lemma DayOfWeekValueRange(day: Int32)
    ensures 0 <= day < 0x7FFF_FFFF ==> 0 <= DayOfWeekValue(day) < 7
    ensures day < 0 ==> -6 <= DayOfWeekValue(day) <= 0
    ensures day == 0x7FFF_FFFF ==> DayOfWeekValue(day) == -2
  {
  }

  /** The conversion as written: 6 wraps to 0, 0 becomes 1 and -1 becomes 0. */
  lemma DayOfWeekValueExamples()
    ensures DayOfWeekValue(6) == 0
    ensures DayOfWeekValue(0) == 1
    ensures DayOfWeekValue(1) == 2
    ensures DayOfWeekValue(-1) == 0
  {
  }

  // ---------------------------------------------------------------------------
  // Clauses and their text

  /** The fields a clause can constrain, in the order the translator appends them. */
  datatype Field = ProjectField | DayField | WeekField | MonthField | YearField

  function Rank(fd: Field): nat {
    match fd
    case ProjectField => 0
    case DayField => 1
    case WeekField => 2
    case MonthField => 3
    case YearField => 4
  }

  /** One `" and <column> = <value> "` clause. */
  datatype Clause = Clause(field: Field, value: int)

  function Opening(fd: Field): string {
    match fd
    case ProjectField => " and activity.project_id = '"
    case DayField => " and day_of_week(activity.start) = "
    case WeekField => " and week(activity.start) = "
    case MonthField => " and month(activity.start) = "
    case YearField => " and year(activity.start) = "
  }

  /** The project id is written as a quoted literal, the date parts as bare numbers. */
  function Closing(fd: Field): string {
    if fd == ProjectField then "' " else " "
  }

  function RenderClause(c: Clause): string {
    Opening(c.field) + IntToString(c.value) + Closing(c.field)
  }

  function Render(cs: seq<Clause>): (s: string)
    ensures cs == [] <==> s == []
  {
    if cs == [] then "" else RenderClause(cs[0]) + Render(cs[1..])
  }

  /** The value a field of the filter constrains its column to, if it constrains it. */
  function Value(f: Filter, fd: Field): Option<int> {
    match fd
    case ProjectField => if ConstrainsProject(f) then Some(f.project.value) else None
    case DayField => if f.day.Some? then Some(DayOfWeekValue(f.day.value)) else None
    case WeekField => if f.weekOfYear.Some? then Some(f.weekOfYear.value) else None
    case MonthField => if f.month.Some? then Some(f.month.value) else None
    case YearField => if f.year.Some? then Some(f.year.value) else None
  }

  /** The clause one field contributes: none, or one clause on that field. */
  function Part(f: Filter, fd: Field): (cs: seq<Clause>)
    ensures |cs| <= 1
    ensures forall c :: c in cs ==> c.field == fd
    ensures forall v :: Clause(fd, v) in cs <==> Value(f, fd) == Some(v)
  {
    match Value(f, fd)
    case None => []
    case Some(v) => [Clause(fd, v)]
  }

  /** The clause list a filter stands for: the parts of the five fields, in the order
      the translator appends them. */
  function Clauses(f: Filter): seq<Clause> {
    Part(f, ProjectField) + Part(f, DayField) + Part(f, WeekField) + Part(f, MonthField) + Part(f, YearField)
  }

  /** A clause belongs to the list exactly when its field constrains its column to
      its value. */
  lemma InClauses(f: Filter, c: Clause)
    ensures c in Clauses(f) <==> Value(f, c.field) == Some(c.value)
  {
    var p, d, w, m, y := Part(f, ProjectField), Part(f, DayField), Part(f, WeekField), Part(f, MonthField), Part(f, YearField);
    assert c in Clauses(f) <==> c in p || c in d || c in w || c in m || c in y;
    assert c in Part(f, c.field) <==> Value(f, c.field) == Some(c.value);
  }

  /** A field contributes a clause exactly when it constrains its column, and then
      with the value it constrains it to. */
  lemma ClausesExact(f: Filter)
    ensures forall fd, v :: Clause(fd, v) in Clauses(f) <==> Value(f, fd) == Some(v)
  {
    forall fd, v ensures Clause(fd, v) in Clauses(f) <==> Value(f, fd) == Some(v) {
      InClauses(f, Clause(fd, v));
    }
  }

  ghost predicate FieldsAscend(cs: seq<Clause>) {
    forall i, j :: 0 <= i < j < |cs| ==> Rank(cs[i].field) < Rank(cs[j].field)
  }

  /** At most one clause per field, and the clauses follow the field order. */
  lemma ClausesOrdered(f: Filter)
    ensures |Clauses(f)| <= 5
    ensures FieldsAscend(Clauses(f))
  {
    var s1 := Part(f, ProjectField);
    assert FieldsAscend(s1);
    var s2 := s1 + Part(f, DayField);
    AscendingJoin(s1, f, DayField);
    var s3 := s2 + Part(f, WeekField);
    AscendingJoin(s2, f, WeekField);
    var s4 := s3 + Part(f, MonthField);
    AscendingJoin(s3, f, MonthField);
    AscendingJoin(s4, f, YearField);
  }

  /** Appending the part of a later field keeps the fields ascending. */
  lemma AscendingJoin(xs: seq<Clause>, f: Filter, fd: Field)
    requires FieldsAscend(xs) && forall c :: c in xs ==> Rank(c.field) < Rank(fd)
    ensures FieldsAscend(xs + Part(f, fd)) && forall c :: c in xs + Part(f, fd) ==> Rank(c.field) <= Rank(fd)
  {
    var ys := Part(f, fd);
    var cs := xs + ys;
    forall i, j | 0 <= i < j < |cs| ensures Rank(cs[i].field) < Rank(cs[j].field) {
      if j >= |xs| {
        assert cs[i] == xs[i] && xs[i] in xs;
        assert cs[j] == ys[0] && ys[0] in ys;
      }
    }
  }

  /** No clause at all exactly when no field constrains anything. */
  lemma ClausesEmptyIff(f: Filter)
    ensures Clauses(f) == [] <==> ConstrainsNothing(f)
  {
    if Clauses(f) == [] {
      assert Part(f, ProjectField) == [] && Part(f, DayField) == [] && Part(f, WeekField) == [];
      assert Part(f, MonthField) == [] && Part(f, YearField) == [];
      assert Value(f, ProjectField).None? && Value(f, DayField).None? && Value(f, WeekField).None?;
    }
  }

  /** One conditional `sqlCondition.append(…)`: the clause of field `fd`, when the
      filter constrains that field. */
  function AppendClause(s: string, f: Filter, fd: Field): (r: string)
    ensures |s| <= |r| && r[..|s|] == s
    ensures r == s <==> Value(f, fd).None?
  {
    match Value(f, fd)
    case None => s
    case Some(v) => s + (Opening(fd) + IntToString(v) + Closing(fd))
  }

  /** The condition text `getActivities(Filter)` builds, append by append. It is empty
      exactly when no field of the filter constrains anything. */
  function Condition(f: Filter): (s: string)
    ensures s == "" <==> ConstrainsNothing(f)
  {
    var s0 := "";
    var s1 := AppendClause(s0, f, ProjectField);
    var s2 := AppendClause(s1, f, DayField);
    var s3 := AppendClause(s2, f, WeekField);
    var s4 := AppendClause(s3, f, MonthField);
    AppendClause(s4, f, YearField)
  }

  /** Rendering a clause list is the concatenation of its clauses' texts. */
  lemma {:induction false} RenderConcat(a: seq<Clause>, b: seq<Clause>)
    ensures Render(a + b) == Render(a) + Render(b)
  {
    if a == [] {
      assert a + b == b;
    } else {
      assert (a + b)[0] == a[0];
      assert (a + b)[1..] == a[1..] + b;
      RenderConcat(a[1..], b);
    }
  }

  lemma RenderSnoc(cs: seq<Clause>, c: Clause)
    ensures Render(cs + [c]) == Render(cs) + RenderClause(c)
  {
    RenderConcat(cs, [c]);
    assert [c][1..] == [];
    assert RenderClause(c) + [] == RenderClause(c);
  }

  lemma AppendRendersPart(cs: seq<Clause>, f: Filter, fd: Field)
    ensures AppendClause(Render(cs), f, fd) == Render(cs + Part(f, fd))
  {
    match Value(f, fd)
    case None =>
      assert cs + Part(f, fd) == cs;
    case Some(v) =>
      RenderSnoc(cs, Clause(fd, v));
  }

  /** The text is the clauses of the filter, rendered one after the other in the order
      project, day of week, week of year, month, year. */
  lemma ConditionRendersClauses(f: Filter)
    ensures Condition(f) == Render(Clauses(f))
  {
    var p, d, w, m, y := Part(f, ProjectField), Part(f, DayField), Part(f, WeekField), Part(f, MonthField), Part(f, YearField);
    assert Render([]) == "";
    AppendRendersPart([], f, ProjectField);
    assert [] + p == p;
    AppendRendersPart(p, f, DayField);
    AppendRendersPart(p + d, f, WeekField);
    AppendRendersPart(p + d + w, f, MonthField);
    AppendRendersPart(p + d + w + m, f, YearField);
  }

  // ---------------------------------------------------------------------------
  // Reading a condition back, as the database parses the fragment the translator emits

  predicate StartsWith(s: string, prefix: string) {
    |prefix| <= |s| && s[..|prefix|] == prefix
  }

  /** The field whose opening text starts `s`, if any. */
  function FieldAt(s: string): Option<Field> {
    if StartsWith(s, Opening(ProjectField)) then Some(ProjectField)
    else if StartsWith(s, Opening(DayField)) then Some(DayField)
    else if StartsWith(s, Opening(WeekField)) then Some(WeekField)
    else if StartsWith(s, Opening(MonthField)) then Some(MonthField)
    else if StartsWith(s, Opening(YearField)) then Some(YearField)
    else None
  }

  /** Reads one clause at the front of `s`; returns it and the rest of the text. */
  function ParseClause(s: string): (r: Option<(Clause, string)>)
    ensures r.Some? ==> |r.value.1| < |s|
  {
    match FieldAt(s)
    case None => None
    case Some(fd) =>
      match ParseInt(s[|Opening(fd)|..])
      case None => None
      case Some((v, rest)) =>
        if StartsWith(rest, Closing(fd)) then Some((Clause(fd, v), rest[|Closing(fd)|..])) else None
  }

  /** Reads a whole condition as a list of clauses; None for text outside the fragment. */
  function ParseConditions(s: string): Option<seq<Clause>>
    decreases |s|
  {
    if s == [] then Some([])
    else match ParseClause(s)
      case None => None
      case Some((c, rest)) =>
        match ParseConditions(rest)
        case None => None
        case Some(cs) => Some([c] + cs)
  }

  /** The character after `" and "` tells the five openings apart. */
  function Initial(fd: Field): (c: char)
    ensures Opening(fd)[5] == c
  {
    match fd
    case ProjectField => 'a'
    case DayField => 'd'
    case WeekField => 'w'
    case MonthField => 'm'
    case YearField => 'y'
  }

  /** A text that starts with an opening has that opening's initial at position 5. */
  lemma StartsWithOpening(s: string, fd: Field)
    ensures StartsWith(s, Opening(fd)) ==> |s| > 5 && s[5] == Initial(fd)
  {
    if StartsWith(s, Opening(fd)) {
      assert s[..|Opening(fd)|][5] == s[5];
    }
  }

  lemma FieldAtOpening(fd: Field, tail: string)
    ensures FieldAt(Opening(fd) + tail) == Some(fd)
  {
    var s := Opening(fd) + tail;
    assert s[..|Opening(fd)|] == Opening(fd);
    StartsWithOpening(s, fd);
    StartsWithOpening(s, ProjectField);
    StartsWithOpening(s, DayField);
    StartsWithOpening(s, WeekField);
    StartsWithOpening(s, MonthField);
  }

  lemma {:induction false} ParseRenderedClause(c: Clause, tail: string)
    ensures ParseClause(RenderClause(c) + tail) == Some((c, tail))
  {
    var fd := c.field;
    var s := RenderClause(c) + tail;
    var numberAndRest := IntToString(c.value) + (Closing(fd) + tail);
    assert s == Opening(fd) + numberAndRest;
    FieldAtOpening(fd, numberAndRest);
    assert s[|Opening(fd)|..] == numberAndRest;
    ParseIntToString(c.value, Closing(fd) + tail);
    assert (Closing(fd) + tail)[..|Closing(fd)|] == Closing(fd);
  }

  /** The database reads back exactly the clauses that were rendered. */
  lemma {:induction false} ParseRender(cs: seq<Clause>)
    ensures ParseConditions(Render(cs)) == Some(cs)
  {
    if cs != [] {
      ParseRenderedClause(cs[0], Render(cs[1..]));
      ParseRender(cs[1..]);
      assert [cs[0]] + cs[1..] == cs;
    }
  }

  /** The condition built from a filter is read back as that filter's clauses; so two
      filters yield the same text only when they constrain the same columns to the
      same values. */
  lemma ParseCondition(f: Filter)
    ensures ParseConditions(Condition(f)) == Some(Clauses(f))
  {
    ConditionRendersClauses(f);
    ParseRender(Clauses(f));
  }

  // ---------------------------------------------------------------------------
  // Meaning of a condition

  /** The database's date functions `day_of_week`, `week`, `month`, `year` on a
      timestamp. Their numbering belongs to the database engine; they stay parameters. */
  datatype Calendar = Calendar(
    dayOfWeek: int -> int,
    week: int -> int,
    month: int -> int,
    year: int -> int)

  predicate Holds(c: Clause, a: ActivityData, cal: Calendar) {
    match c.field
    case ProjectField => a.projectId == c.value
    case DayField => cal.dayOfWeek(a.start) == c.value
    case WeekField => cal.week(a.start) == c.value
    case MonthField => cal.month(a.start) == c.value
    case YearField => cal.year(a.start) == c.value
  }

  predicate AllHold(cs: seq<Clause>, a: ActivityData, cal: Calendar) {
    forall c :: c in cs ==> Holds(c, a, cal)
  }

  /** What a filter asks of an activity, field by field. */
  predicate Accepts(f: Filter, a: ActivityData, cal: Calendar) {
    && (ConstrainsProject(f) ==> a.projectId == f.project.value)
    && (f.day.Some? ==> cal.dayOfWeek(a.start) == DayOfWeekValue(f.day.value))
    && (f.weekOfYear.Some? ==> cal.week(a.start) == f.weekOfYear.value)
    && (f.month.Some? ==> cal.month(a.start) == f.month.value)
    && (f.year.Some? ==> cal.year(a.start) == f.year.value)
  }

  /** The clauses of a filter hold of an activity exactly when the filter accepts it. */
  lemma ClausesMeanFilter(f: Filter, a: ActivityData, cal: Calendar)
    ensures AllHold(Clauses(f), a, cal) <==> Accepts(f, a, cal)
  {
    if AllHold(Clauses(f), a, cal) {
      AllHoldAccepts(f, a, cal);
    }
    if Accepts(f, a, cal) {
      forall c | c in Clauses(f) ensures Holds(c, a, cal) {
        InClauses(f, c);
      }
    }
  }

  lemma AllHoldAccepts(f: Filter, a: ActivityData, cal: Calendar)
    requires AllHold(Clauses(f), a, cal)
    ensures Accepts(f, a, cal)
  {
    if ConstrainsProject(f) { ClauseHolds(f, a, cal, ProjectField); }
    if f.day.Some? { ClauseHolds(f, a, cal, DayField); }
    if f.weekOfYear.Some? { ClauseHolds(f, a, cal, WeekField); }
    if f.month.Some? { ClauseHolds(f, a, cal, MonthField); }
    if f.year.Some? { ClauseHolds(f, a, cal, YearField); }
  }

  lemma ClauseHolds(f: Filter, a: ActivityData, cal: Calendar, fd: Field)
    requires AllHold(Clauses(f), a, cal) && Value(f, fd).Some?
    ensures Holds(Clause(fd, Value(f, fd).value), a, cal)
  {
    InClauses(f, Clause(fd, Value(f, fd).value));
  }

  /** With any engine whose day-of-week numbers run from 1 to 7, a filter on day 6
      (converted to 0) accepts no activity at all. */
  lemma DaySixMatchesNothing(f: Filter, a: ActivityData, cal: Calendar)
    requires f.day == Some(6)
    requires 1 <= cal.dayOfWeek(a.start) <= 7
    ensures !Accepts(f, a, cal)
  {
    DayOfWeekValueExamples();
  }
}
