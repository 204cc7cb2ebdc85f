/** The dashboards: the answers a quiz form submits, the fields of the row a
    submission saves, the student's own average, and the teacher's filters,
    class average, per-subject values and weak-area counts. */
module Dashboard {
  import opened Wrappers
  import opened Seqs
  import opened Text
  import opened Sorting
  import opened Engine
  import opened Users
  import opened Results

  // ----------------------------------------------------------- quiz form

  /** The answers map filled by the quiz form: the widget shown for item
      `idx` reports `responses[idx]`, which is stored under `q_{idx}`. */
  method BuildAnswers(items: seq<QuizItem>, responses: seq<string>) returns (answers: map<string, string>)
    requires |responses| == |items|
    ensures answers.Keys == set i | 0 <= i < |items| :: Key(i)
    ensures forall i :: 0 <= i < |items| ==> Lookup(answers, Key(i)) == responses[i]
  {
    answers := map[];
    for idx := 0 to |items|
      invariant answers.Keys == set i | 0 <= i < idx :: Key(i)
      invariant forall i :: 0 <= i < idx ==> Key(i) in answers && answers[Key(i)] == responses[i]
    {
      forall i | 0 <= i < idx
        ensures Key(i) != Key(idx)
      {
        if Key(i) == Key(idx) {
          KeyInjective(i, idx);
        }
      }
      answers := answers[Key(idx) := responses[idx]];
    }
  }

  /** Under such a map grading judges item `i` against response `i`. */
  lemma AnswersGraded(items: seq<QuizItem>, responses: seq<string>, answers: map<string, string>)
    requires |responses| == |items|
    requires forall i :: 0 <= i < |items| ==> Lookup(answers, Key(i)) == responses[i]
    ensures forall i :: 0 <= i < |items| ==>
      Grades(items, answers)[i] == GradeItem(i, items[i], responses[i])
  {
    forall i | 0 <= i < |items|
      ensures Grades(items, answers)[i] == GradeItem(i, items[i], responses[i])
    {
      assert Lookup(answers, Key(i)) == responses[i];
    }
  }

  // ------------------------------------------------------ the saved row

  const QuizType := "MCQ+Short"

  /** `user.get("name") or user["email"]`. */
  function StudentName(u: User): (n: string)
    ensures n != "" || u.email == ""
    ensures u.name != "" ==> n == u.name
    ensures u.name == "" ==> n == u.email
  {
    if u.name != "" then u.name else u.email
  }

  /** `topic_text[:100]`. */
  function StoredTopic(topic: string): (t: string)
    ensures t <= topic
    ensures |t| == Min(100, |topic|)
  {
    PyTake(topic, 100)
  }

  /** `"; ".join(feedback_list)[:500]`. */
  function FeedbackSummary(lines: seq<string>): (s: string)
    ensures s <= Join("; ", lines)
    ensures |s| == Min(500, |Join("; ", lines)|)
    ensures |Join("; ", lines)| <= 500 ==> s == Join("; ", lines)
  {
    PyTake(Join("; ", lines), 500)
  }

  /** `", ".join(weak_areas)`. */
  function WeakAreasField(areas: seq<string>): string {
    Join(", ", areas)
  }

  /** The teacher view's `str.split(", ")` of a weak-areas value. */
  function SplitWeakAreas(field: string): (parts: seq<string>)
    ensures |parts| >= 1
  {
    Split(field, ", ")
  }

  /** Splitting the stored field gives back the weak areas, as long as there
      is at least one and none of them contains `", "`. */
  lemma WeakAreasRoundTrip(areas: seq<string>)
    requires |areas| >= 1
    requires forall i :: 0 <= i < |areas| ==> !Contains(areas[i], ", ")
    ensures SplitWeakAreas(WeakAreasField(areas)) == areas
  {
    CommaSpaceBorderless();
    SplitJoin(areas, ", ");
  }

  /** A quiz without weak areas stores an empty cell, which is read back as
      missing and so dropped by both weak-area counts. */
  lemma NoWeakAreasReadAsMissing()
    ensures ReadCell(WeakAreasField([])) == None
  {
  }

  /** Submitting a quiz: grades the answers and appends the row built from
      the result to the log. */
  method SubmitQuiz(log: ResultLog, user: User, subject: string, topicText: string, difficulty: string,
                    items: seq<QuizItem>, answers: map<string, string>, timestamp: string)
    returns (result: GradeResult)
    modifies log
    ensures result.total == |items| && result.score == Score(items, answers)
    ensures result.feedbackList == FeedbackOf(Grades(items, answers))
    ensures result.weakAreas == Filter(WeakOf(Grades(items, answers)), NonEmpty)
    ensures log.rows == old(log.rows) + [NewRow(user.email, StudentName(user), subject, StoredTopic(topicText),
                                                difficulty, QuizType, result.score, result.total, timestamp,
                                                WeakAreasField(result.weakAreas), FeedbackSummary(result.feedbackList))]
  {
    result := GradeQuizSubmission(items, answers);
    log.SaveStudentResult(user.email, StudentName(user), subject, StoredTopic(topicText), difficulty, QuizType,
                          result.score, result.total, timestamp,
                          WeakAreasField(result.weakAreas), FeedbackSummary(result.feedbackList));
  }

  // ----------------------------------------------------------- averages

  /** The dashboards' ratio rule `(s / t) * 100 if t > 0 else 0`. */
  function DashboardPercent(score: int, total: int): real {
    if total > 0 then Percent(score, total) else 0.0
  }

  function DashboardAverage(rows: seq<ResultRow>): real {
    DashboardPercent(SumScore(rows), SumTotal(rows))
  }

  /** The two ratio rules differ only on a negative total, so the exported
      report shows the average the dashboard shows. */
  lemma AveragesAgree(rows: seq<ResultRow>)
    requires SumTotal(rows) >= 0
    ensures DashboardAverage(rows) == ReportAverage(rows)
  {
  }

  /** Over valid rows the dashboard average is a percentage, and it is 100
      exactly when every item was passed. */
  lemma DashboardAverageBounds(rows: seq<ResultRow>)
    requires forall i :: 0 <= i < |rows| ==> ValidRow(rows[i])
    ensures 0.0 <= DashboardAverage(rows) <= 100.0
    ensures DashboardAverage(rows) == 100.0 <==> SumTotal(rows) > 0 && SumScore(rows) == SumTotal(rows)
  {
    SumsBounded(rows);
    ReportAverageBounds(rows);
    AveragesAgree(rows);
  }

  /** `df[df["email"] == email]`. */
  function StudentRows(rows: seq<ResultRow>, email: string): seq<ResultRow> {
    Filter(rows, (r: ResultRow) => r.email == email)
  }

  /** The student's "Average Score". */
  function StudentAverage(rows: seq<ResultRow>, email: string): real {
    DashboardAverage(StudentRows(rows, email))
  }

  /** The student's rows are exactly their own, in table order. */
  lemma StudentRowsSpec(rows: seq<ResultRow>, email: string)
    ensures forall i :: 0 <= i < |StudentRows(rows, email)| ==>
      StudentRows(rows, email)[i].email == email && StudentRows(rows, email)[i] in rows
    ensures forall i :: 0 <= i < |rows| && rows[i].email == email ==> rows[i] in StudentRows(rows, email)
  {
    FilterMembers(rows, (r: ResultRow) => r.email == email);
  }

  /** Only the student's own rows count: rows of other users, wherever they
      sit in the table, leave the average as it was. */
  lemma StudentAverageOwnRows(before: seq<ResultRow>, others: seq<ResultRow>, after: seq<ResultRow>, email: string)
    requires forall i :: 0 <= i < |others| ==> others[i].email != email
    ensures StudentAverage(before + others + after, email) == StudentAverage(before + after, email)
  {
    var p := (r: ResultRow) => r.email == email;
    FilterConcat(before + others, after, p);
    FilterConcat(before, others, p);
    FilterConcat(before, after, p);
    FilterNone(others, p);
    assert StudentRows(before + others + after, email) == Filter(before, p) + Filter(after, p);
    assert StudentRows(before + after, email) == Filter(before, p) + Filter(after, p);
  }

  // ------------------------------------------------------ teacher view

  /** A row passes the filters when each non-empty selection contains its value. */
  predicate Selected(r: ResultRow, students: seq<string>, subjects: seq<string>) {
    (students == [] || r.studentName in students) && (subjects == [] || r.subject in subjects)
  }

  /** The student filter and then the subject filter, each skipped when
      nothing is selected. */
  function FilterRows(rows: seq<ResultRow>, students: seq<string>, subjects: seq<string>): (view: seq<ResultRow>)
    ensures |view| <= |rows|
  {
    var byStudent := if students != [] then Filter(rows, (r: ResultRow) => r.studentName in students) else rows;
    if subjects != [] then Filter(byStudent, (r: ResultRow) => r.subject in subjects) else byStudent
  }

  /** The filters are conjunctive: a row is shown exactly when it is selected
      on both fields. */
  lemma FilterRowsSpec(rows: seq<ResultRow>, students: seq<string>, subjects: seq<string>)
    ensures forall i :: 0 <= i < |FilterRows(rows, students, subjects)| ==>
      FilterRows(rows, students, subjects)[i] in rows && Selected(FilterRows(rows, students, subjects)[i], students, subjects)
    ensures forall i :: 0 <= i < |rows| && Selected(rows[i], students, subjects) ==>
      rows[i] in FilterRows(rows, students, subjects)
  {
    var ps := (r: ResultRow) => r.studentName in students;
    var pj := (r: ResultRow) => r.subject in subjects;
    var byStudent := if students != [] then Filter(rows, ps) else rows;
    if students != [] {
      FilterMembers(rows, ps);
    }
    if subjects != [] {
      FilterMembers(byStudent, pj);
    }
    var view := FilterRows(rows, students, subjects);
    assert view == if subjects != [] then Filter(byStudent, pj) else byStudent;
    forall i | 0 <= i < |view|
      ensures view[i] in rows && Selected(view[i], students, subjects)
    {
      assert view[i] in byStudent;
      var j :| 0 <= j < |byStudent| && byStudent[j] == view[i];
    }
    forall i | 0 <= i < |rows| && Selected(rows[i], students, subjects)
      ensures rows[i] in view
    {
      assert rows[i] in byStudent;
      var j :| 0 <= j < |byStudent| && byStudent[j] == rows[i];
    }
  }

  /** The class average of the filtered rows. */
  function ClassAverage(rows: seq<ResultRow>, students: seq<string>, subjects: seq<string>): real {
    DashboardAverage(FilterRows(rows, students, subjects))
  }

  /** A subject group's bar: missing (NaN) unless the group total is positive. */
  function PivotValue(group: seq<ResultRow>): (v: Option<real>)
    ensures v.None? <==> SumTotal(group) <= 0
    ensures v.Some? ==> v.value == DashboardAverage(group)
  {
    if SumTotal(group) > 0 then Some(Percent(SumScore(group), SumTotal(group))) else None
  }

  /** "Performance by Subject": one bar per subject present. */
  function SubjectPivot(rows: seq<ResultRow>): (pivot: map<string, Option<real>>)
    ensures pivot.Keys == set i | 0 <= i < |rows| :: rows[i].subject
  {
    map s | s in (set i | 0 <= i < |rows| :: rows[i].subject) :: PivotValue(SubjectRows(rows, s))
  }

  /** Over valid rows every present bar is a percentage; a bar is missing
      exactly when its group's items add up to zero. */
  lemma PivotSpec(rows: seq<ResultRow>, s: string)
    requires forall i :: 0 <= i < |rows| ==> ValidRow(rows[i])
    requires s in SubjectPivot(rows)
    ensures SubjectPivot(rows)[s].None? <==> SumTotal(SubjectRows(rows, s)) == 0
    ensures SubjectPivot(rows)[s].Some? ==> 0.0 <= SubjectPivot(rows)[s].value <= 100.0
  {
    var g := SubjectRows(rows, s);
    FilterMembers(rows, (r: ResultRow) => r.subject == s);
    assert forall i :: 0 <= i < |g| ==> ValidRow(g[i]) by {
      forall i | 0 <= i < |g|
        ensures ValidRow(g[i])
      {
        assert g[i] in rows;
      }
    }
    SumsBounded(g);
    if SumTotal(g) > 0 {
      PercentBounds(SumScore(g), SumTotal(g));
    }
  }

  /** The pieces one row contributes after `dropna` and `explode`. */
  function RowExplode(r: ResultRow): seq<string> {
    match r.weakAreas
    case None => []
    case Some(areas) => SplitWeakAreas(areas)
  }

  /** `df.dropna(subset=["weak_areas"])`, split on `", "` and exploded. */
  function ExplodedWeakAreas(rows: seq<ResultRow>): seq<string> {
    if rows == [] then [] else ExplodedWeakAreas(rows[..|rows| - 1]) + RowExplode(rows[|rows| - 1])
  }

  /** A row saved with a non-empty list of weak areas, none containing
      `", "`, explodes to that list again. */
  lemma SavedRowExplodes(r: ResultRow, areas: seq<string>)
    requires |areas| >= 1
    requires forall i :: 0 <= i < |areas| ==> !Contains(areas[i], ", ")
    requires WeakAreasField(areas) !in NaMarkers
    requires r.weakAreas == ReadCell(WeakAreasField(areas))
    ensures RowExplode(r) == areas
  {
    WeakAreasRoundTrip(areas);
  }

  /** `weak_list.value_counts().head(5)`.  The order among equal counts is the
      model's own (first occurrence); the table library leaves it open. */
  function TeacherWeakCounts(rows: seq<ResultRow>): seq<(string, nat)> {
    TopCounts(ExplodedWeakAreas(rows), 5)
  }

  /** At most five distinct areas, each with its number of occurrences among
      the exploded entries, in non-increasing order of count; any area left
      out occurs no more often than any area shown. */
  lemma TeacherWeakCountsSpec(rows: seq<ResultRow>)
    ensures |TeacherWeakCounts(rows)| == Min(5, |Distinct(ExplodedWeakAreas(rows))|)
    ensures NonIncreasing(TeacherWeakCounts(rows), CountKey)
    ensures NoDupBy(TeacherWeakCounts(rows), Name)
    ensures forall i :: 0 <= i < |TeacherWeakCounts(rows)| ==>
      TeacherWeakCounts(rows)[i].1 == multiset(ExplodedWeakAreas(rows))[TeacherWeakCounts(rows)[i].0]
    ensures forall x :: x in ExplodedWeakAreas(rows) && x !in Keys(TeacherWeakCounts(rows)) ==>
      forall i :: 0 <= i < |TeacherWeakCounts(rows)| ==> multiset(ExplodedWeakAreas(rows))[x] <= TeacherWeakCounts(rows)[i].1
  {
    var xs := ExplodedWeakAreas(rows);
    TopCountsOrder(xs, 5);
    TopCountsValues(xs, 5);
    forall x | x in xs && x !in Keys(TopCounts(xs, 5))
      ensures forall i :: 0 <= i < |TopCounts(xs, 5)| ==> multiset(xs)[x] <= TopCounts(xs, 5)[i].1
    {
      TopCountsMostFrequent(xs, 5, x);
    }
  }
}
