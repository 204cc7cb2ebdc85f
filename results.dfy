/** The result log (one row per submitted quiz) and the numbers of the
    progress report built from it: the overall average, the average per
    subject and the most common weak areas. */
module Results {
  import opened Wrappers
  import opened Seqs
  import opened Text
  import opened Sorting

  /** One row of the log as it is read back from the table.  Only the weak
      areas column can come back missing: an empty or NA-looking cell is read
      as a missing value. */
  datatype ResultRow = ResultRow(
    email: string, studentName: string, subject: string, topic: string,
    difficulty: string, quizType: string, score: int, total: int,
    timestamp: string, weakAreas: Option<string>, feedbackSummary: string)

  /** The cell texts the table reader takes for a missing value by default. */
  const NaMarkers: set<string> := {
    "", "#N/A", "#N/A N/A", "#NA", "-1.#IND", "-1.#QNAN", "-NaN", "-nan",
    "1.#IND", "1.#QNAN", "<NA>", "N/A", "NA", "NULL", "NaN", "None", "n/a",
    "nan", "null"
  }

  /** Reading a weak-areas cell back. */
  function ReadCell(s: string): (c: Option<string>)
    ensures c.None? <==> s in NaMarkers
    ensures c.Some? ==> c.value == s
  {
    if s in NaMarkers then None else Some(s)
  }

  /** A text cell that is not an NA marker reads back as written, and a
      missing cell, written as an empty cell, reads back as missing. */
  lemma ReadCellStable(c: Option<string>)
    requires c.Some? ==> c.value !in NaMarkers
    ensures ReadCell(c.GetOr("")) == c
  {
  }

  /** The row `save_student_result` adds, as it is read back. */
  function NewRow(email: string, studentName: string, subject: string, topic: string,
                  difficulty: string, quizType: string, score: int, total: int,
                  timestamp: string, weakAreas: string, feedbackSummary: string): (r: ResultRow)
    ensures r.weakAreas.Some? <==> weakAreas !in NaMarkers
    ensures r.weakAreas.Some? ==> r.weakAreas.value == weakAreas
  {
    ResultRow(email, studentName, subject, topic, difficulty, quizType, score, total,
              timestamp, ReadCell(weakAreas), feedbackSummary)
  }

  /** The result table, which only ever grows. */
  class ResultLog {
    var rows: seq<ResultRow>

    /** A fresh table has the column headers and no rows. */
    constructor ()
      ensures rows == []
    {
      rows := [];
    }

    /** `save_student_result`: appends exactly one row and keeps every earlier one. */
    method SaveStudentResult(email: string, studentName: string, subject: string, topic: string,
                             difficulty: string, quizType: string, score: int, total: int,
                             timestamp: string, weakAreas: string, feedbackSummary: string)
      modifies this
      ensures rows == old(rows) + [NewRow(email, studentName, subject, topic, difficulty, quizType,
                                          score, total, timestamp, weakAreas, feedbackSummary)]
    {
      rows := rows + [NewRow(email, studentName, subject, topic, difficulty, quizType,
                             score, total, timestamp, weakAreas, feedbackSummary)];
    }
  }

  // ------------------------------------------------------------ averages

  /** `df["score"].sum()`. */
  function SumScore(rows: seq<ResultRow>): int {
    if rows == [] then 0 else SumScore(rows[..|rows| - 1]) + rows[|rows| - 1].score
  }

  /** `df["total"].sum()`. */
  function SumTotal(rows: seq<ResultRow>): int {
    if rows == [] then 0 else SumTotal(rows[..|rows| - 1]) + rows[|rows| - 1].total
  }

  /** A row as grading produces it: the score is at most the number of items. */
  predicate ValidRow(r: ResultRow) {
    0 <= r.score <= r.total
  }

  lemma {:induction false} SumsConcat(a: seq<ResultRow>, b: seq<ResultRow>)
    ensures SumScore(a + b) == SumScore(a) + SumScore(b)
    ensures SumTotal(a + b) == SumTotal(a) + SumTotal(b)
    decreases |b|
  {
    if b == [] {
      assert a + b == a;
    } else {
      var n := |b| - 1;
      SumsConcat(a, b[..n]);
      assert (a + b)[..|a + b| - 1] == a + b[..n];
    }
  }

  /** Over valid rows the score sum lies between 0 and the total sum. */
  lemma {:induction false} SumsBounded(rows: seq<ResultRow>)
    requires forall i :: 0 <= i < |rows| ==> ValidRow(rows[i])
    ensures 0 <= SumScore(rows) <= SumTotal(rows)
  {
    if rows != [] {
      SumsBounded(rows[..|rows| - 1]);
    }
  }

  /** `(score / total) * 100` in exact arithmetic. */
  function Percent(score: int, total: int): real
    requires total != 0
  {
    (score as real / total as real) * 100.0
  }

  lemma PercentBounds(score: int, total: int)
    requires 0 <= score <= total && total > 0
    ensures 0.0 <= Percent(score, total) <= 100.0
    ensures Percent(score, total) == 100.0 <==> score == total
  {
    var q := score as real / total as real;
    assert q * (total as real) == score as real;
  }

  /** The report's ratio rule `(s / t) * 100 if t else 0`. */
  function ReportPercent(score: int, total: int): real {
    if total != 0 then Percent(score, total) else 0.0
  }

  /** The report's "Average Score". */
  function ReportAverage(rows: seq<ResultRow>): real {
    ReportPercent(SumScore(rows), SumTotal(rows))
  }

  /** Over valid rows the average is a percentage, it is 100 exactly when every
      item was passed, and an empty table averages 0. */
  lemma ReportAverageBounds(rows: seq<ResultRow>)
    requires forall i :: 0 <= i < |rows| ==> ValidRow(rows[i])
    ensures 0.0 <= ReportAverage(rows) <= 100.0
    ensures ReportAverage(rows) == 100.0 <==> SumTotal(rows) > 0 && SumScore(rows) == SumTotal(rows)
    ensures rows == [] ==> ReportAverage(rows) == 0.0
  {
    SumsBounded(rows);
    if SumTotal(rows) != 0 {
      PercentBounds(SumScore(rows), SumTotal(rows));
    }
  }

  // ---------------------------------------------------------- by subject

  function SubjectColumn(rows: seq<ResultRow>): (col: seq<string>)
    ensures |col| == |rows|
    ensures forall i :: 0 <= i < |rows| ==> col[i] == rows[i].subject
  {
    seq(|rows|, i requires 0 <= i < |rows| => rows[i].subject)
  }

  /** The rows of one subject group, in table order. */
  function SubjectRows(rows: seq<ResultRow>, subject: string): seq<ResultRow> {
    Filter(rows, (r: ResultRow) => r.subject == subject)
  }

  /** A group's value under the report's ratio rule. */
  function GroupPercent(rows: seq<ResultRow>, subject: string): real {
    var g := SubjectRows(rows, subject);
    ReportPercent(SumScore(g), SumTotal(g))
  }

  /** One entry per subject present, with its group's percentage. */
  function SubjectGroups(rows: seq<ResultRow>): (groups: seq<(string, real)>)
    ensures Keys(groups) == Distinct(SubjectColumn(rows))
  {
    var subjects := Distinct(SubjectColumn(rows));
    seq(|subjects|, i requires 0 <= i < |subjects| => (subjects[i], GroupPercent(rows, subjects[i])))
  }

  function Pct(e: (string, real)): real {
    e.1
  }

  function Name<V>(e: (string, V)): string {
    e.0
  }

  /** "Performance by Subject": the groups ordered by descending percentage.
      The order among equal percentages is the model's own; the table
      library's sort does not fix it. */
  function BySubject(rows: seq<ResultRow>): seq<(string, real)> {
    SortDesc(SubjectGroups(rows), Pct)
  }

  /** The ranking lists every subject once, each with its own group's value,
      in non-increasing order of value. */
  lemma BySubjectSpec(rows: seq<ResultRow>)
    ensures multiset(BySubject(rows)) == multiset(SubjectGroups(rows))
    ensures |BySubject(rows)| == |Distinct(SubjectColumn(rows))|
    ensures NonIncreasing(BySubject(rows), Pct)
    ensures NoDupBy(BySubject(rows), Name)
    ensures forall i :: 0 <= i < |BySubject(rows)| ==> BySubject(rows)[i].1 == GroupPercent(rows, BySubject(rows)[i].0)
  {
    var groups := SubjectGroups(rows);
    SortDescPerm(groups, Pct);
    SortDescSorted(groups, Pct);
    assert NoDupBy(groups, Name) by {
      assert forall i :: 0 <= i < |groups| ==> Name(groups[i]) == Keys(groups)[i];
    }
    SortDescNoDupBy(groups, Pct, Name);
    var r := BySubject(rows);
    assert |r| == |multiset(r)| == |multiset(groups)| == |groups|;
    forall i | 0 <= i < |r|
      ensures r[i].1 == GroupPercent(rows, r[i].0)
    {
      assert r[i] in multiset(groups);
    }
  }

  /** Every subject that occurs in the table is ranked, and only those are. */
  lemma BySubjectCovers(rows: seq<ResultRow>)
    ensures forall i :: 0 <= i < |rows| ==> rows[i].subject in Keys(BySubject(rows))
    ensures forall k :: 0 <= k < |BySubject(rows)| ==> BySubject(rows)[k].0 in SubjectColumn(rows)
  {
    BySubjectRanksEvery(rows);
    BySubjectRanksOnly(rows);
  }

  lemma BySubjectRanksEvery(rows: seq<ResultRow>)
    ensures forall i :: 0 <= i < |rows| ==> rows[i].subject in Keys(BySubject(rows))
  {
    forall i | 0 <= i < |rows|
      ensures rows[i].subject in Keys(BySubject(rows))
    {
      SubjectRanked(rows, i);
    }
  }

  lemma SubjectRanked(rows: seq<ResultRow>, i: nat)
    requires i < |rows|
    ensures rows[i].subject in Keys(BySubject(rows))
  {
    var col := SubjectColumn(rows);
    var groups := SubjectGroups(rows);
    var r := BySubject(rows);
    assert col[i] == rows[i].subject;
    assert col[i] in Keys(groups) by {
      DistinctMembers(col);
    }
    var j :| 0 <= j < |groups| && Keys(groups)[j] == col[i];
    assert groups[j] in multiset(r) by {
      SortDescPerm(groups, Pct);
    }
    var k :| 0 <= k < |r| && r[k] == groups[j];
    assert Keys(r)[k] == rows[i].subject;
  }

  lemma BySubjectRanksOnly(rows: seq<ResultRow>)
    ensures forall k :: 0 <= k < |BySubject(rows)| ==> BySubject(rows)[k].0 in SubjectColumn(rows)
  {
    var col := SubjectColumn(rows);
    var groups := SubjectGroups(rows);
    var r := BySubject(rows);
    SortDescPerm(groups, Pct);
    DistinctMembers(col);
    forall k | 0 <= k < |r|
      ensures r[k].0 in col
    {
      assert r[k] in multiset(groups);
      var j :| 0 <= j < |groups| && groups[j] == r[k];
      assert Keys(groups)[j] == r[k].0;
    }
  }


  // --------------------------------------------------------- weak areas

  /** `a.strip()` kept when non-empty. */
  function StrippedPiece(a: string): Option<string> {
    if Strip(a) != "" then Some(Strip(a)) else None
  }

  /** `[a.strip() for a in areas.split(",") if a.strip()]`. */
  function ReportPieces(areas: string): seq<string> {
    FilterMap(Split(areas, ","), StrippedPiece)
  }

  /** Every piece is a stripped, non-empty comma-separated part of the cell,
      and every such part is counted. */
  lemma ReportPiecesSpec(areas: string)
    ensures forall k :: 0 <= k < |ReportPieces(areas)| ==>
      ReportPieces(areas)[k] != "" && NoEdgeSpace(ReportPieces(areas)[k])
    ensures forall k :: 0 <= k < |ReportPieces(areas)| ==>
      exists j :: 0 <= j < |Split(areas, ",")| && Strip(Split(areas, ",")[j]) == ReportPieces(areas)[k]
    ensures forall j :: 0 <= j < |Split(areas, ",")| && Strip(Split(areas, ",")[j]) != "" ==>
      Strip(Split(areas, ",")[j]) in ReportPieces(areas)
  {
    var parts := Split(areas, ",");
    FilterMapMembers(parts, StrippedPiece);
    var ps := ReportPieces(areas);
    forall k | 0 <= k < |ps|
      ensures ps[k] != "" && NoEdgeSpace(ps[k])
      ensures exists j :: 0 <= j < |parts| && Strip(parts[j]) == ps[k]
    {
      var j :| 0 <= j < |parts| && StrippedPiece(parts[j]) == Some(ps[k]);
      StripSpec(parts[j]);
      assert 0 <= j < |parts| && Strip(parts[j]) == ps[k];
    }
    assert forall k :: 0 <= k < |ps| ==> exists j :: 0 <= j < |parts| && Strip(parts[j]) == ps[k];
    assert parts == Split(areas, ",");
    assert ps == ReportPieces(areas);
    forall j | 0 <= j < |parts| && Strip(parts[j]) != ""
      ensures Strip(parts[j]) in ps
    {
      assert StrippedPiece(parts[j]) == Some(Strip(parts[j]));
    }
  }

  /** The pieces one row contributes; a row without weak areas is dropped. */
  function RowPieces(r: ResultRow): seq<string> {
    match r.weakAreas
    case None => []
    case Some(areas) => ReportPieces(areas)
  }

  /** The pieces counted from the rows that have weak areas, in table order. */
  function WeakPieces(rows: seq<ResultRow>): seq<string> {
    if rows == [] then [] else WeakPieces(rows[..|rows| - 1]) + RowPieces(rows[|rows| - 1])
  }

  lemma WeakPiecesStep(rows: seq<ResultRow>, i: nat)
    requires i < |rows|
    ensures WeakPieces(rows[..i + 1]) == WeakPieces(rows[..i]) + RowPieces(rows[i])
  {
    assert rows[..i + 1][..i] == rows[..i];
  }

  lemma TallyStep(before: seq<string>, pieces: seq<string>, j: nat)
    requires j < |pieces|
    ensures Tally(before + pieces[..j + 1]) == Bump(Tally(before + pieces[..j]), pieces[j])
  {
    TallySnoc(before + pieces[..j], pieces[j]);
    assert before + pieces[..j + 1] == (before + pieces[..j]) + [pieces[j]];
  }

  /** The nested loops that fill the `counts` dict, one bump per piece. */
  method CountWeakAreas(rows: seq<ResultRow>) returns (counts: seq<(string, nat)>)
    ensures counts == Tally(WeakPieces(rows))
  {
    counts := [];
    for i := 0 to |rows|
      invariant counts == Tally(WeakPieces(rows[..i]))
    {
      ghost var before := WeakPieces(rows[..i]);
      WeakPiecesStep(rows, i);
      match rows[i].weakAreas {
        case None =>
          assert before + RowPieces(rows[i]) == before;
        case Some(areas) =>
          var pieces := ReportPieces(areas);
          assert before + pieces[..0] == before;
          for j := 0 to |pieces|
            invariant counts == Tally(before + pieces[..j])
          {
            TallyStep(before, pieces, j);
            counts := Bump(counts, pieces[j]);
          }
          assert pieces[..|pieces|] == pieces;
      }
    }
    assert rows[..|rows|] == rows;
  }

  function CountKey(e: (string, nat)): real {
    e.1 as real
  }

  /** `sorted(counts.items(), key=lambda x: -x[1])[:n]`. */
  function TopCounts(xs: seq<string>, n: nat): seq<(string, nat)> {
    PyTake(SortDesc(Tally(xs), CountKey), n)
  }

  lemma TallyNoDupBy(xs: seq<string>)
    ensures NoDupBy(Tally(xs), Name)
  {
    TallyCounts(xs);
    assert forall i :: 0 <= i < |Tally(xs)| ==> Name(Tally(xs)[i]) == Keys(Tally(xs))[i];
  }

  /** The selection has `min(n, distinct pieces)` entries, no repeated piece,
      and counts in non-increasing order. */
  lemma TopCountsOrder(xs: seq<string>, n: nat)
    ensures |TopCounts(xs, n)| == Min(n, |Distinct(xs)|)
    ensures NonIncreasing(TopCounts(xs, n), CountKey)
    ensures NoDupBy(TopCounts(xs, n), Name)
  {
    var t := Tally(xs);
    var sorted := SortDesc(t, CountKey);
    assert |sorted| == |Distinct(xs)| by {
      TallyKeys(xs);
      SortDescPerm(t, CountKey);
      assert |sorted| == |multiset(sorted)| == |multiset(t)| == |t| == |Keys(t)|;
    }
    SortDescSorted(t, CountKey);
    TallyNoDupBy(xs);
    SortDescNoDupBy(t, CountKey, Name);
    PrefixKeepsOrder(sorted, Min(n, |sorted|), CountKey, Name);
  }

  /** Entries with equal counts appear in the order their pieces were first
      encountered. */
  lemma TopCountsTies(xs: seq<string>, n: nat, c: real)
    ensures WithKey(TopCounts(xs, n), CountKey, c) <= WithKey(Tally(xs), CountKey, c)
  {
    var t := Tally(xs);
    var sorted := SortDesc(t, CountKey);
    SortDescPerm(t, CountKey);
    assert |sorted| == |multiset(sorted)| == |multiset(t)| == |t|;
    var m := Min(n, |sorted|);
    assert TopCounts(xs, n) == sorted[..m];
    WithKeyPrefix(sorted, m, CountKey, c);
    SortDescStable(t, CountKey, c);
  }

  /** Each reported count is the number of occurrences of its piece. */
  lemma TopCountsValues(xs: seq<string>, n: nat)
    ensures forall i :: 0 <= i < |TopCounts(xs, n)| ==>
      TopCounts(xs, n)[i].1 == multiset(xs)[TopCounts(xs, n)[i].0] && TopCounts(xs, n)[i].0 in xs
  {
    var t := Tally(xs);
    var sorted := SortDesc(t, CountKey);
    TallyCounts(xs);
    SortDescPerm(t, CountKey);
    var r := TopCounts(xs, n);
    forall i | 0 <= i < |r|
      ensures r[i].1 == multiset(xs)[r[i].0] && r[i].0 in xs
    {
      assert r[i] == sorted[i];
      assert sorted[i] in multiset(t);
      var j :| 0 <= j < |t| && t[j] == sorted[i];
    }
  }

  /** A piece that is left out occurs no more often than any piece reported. */
  lemma TopCountsMostFrequent(xs: seq<string>, n: nat, x: string)
    requires x in xs && x !in Keys(TopCounts(xs, n))
    ensures forall i :: 0 <= i < |TopCounts(xs, n)| ==> multiset(xs)[x] <= TopCounts(xs, n)[i].1
  {
    var t := Tally(xs);
    var sorted := SortDesc(t, CountKey);
    TallyCounts(xs);
    SortDescPerm(t, CountKey);
    SortDescSorted(t, CountKey);
    var r := TopCounts(xs, n);
    assert x in Keys(t);
    var j :| 0 <= j < |t| && Keys(t)[j] == x;
    assert t[j] in multiset(sorted);
    var k :| 0 <= k < |sorted| && sorted[k] == t[j];
    assert forall i :: 0 <= i < |r| ==> Keys(r)[i] == sorted[i].0 && sorted[i].0 != x;
    assert |r| <= k;
    forall i | 0 <= i < |r|
      ensures multiset(xs)[x] <= r[i].1
    {
      assert r[i] == sorted[i];
      assert CountKey(sorted[i]) >= CountKey(sorted[k]);
    }
  }

  /** "Common Weak Areas" of the report: the six most frequent pieces. */
  function ReportWeakAreas(rows: seq<ResultRow>): seq<(string, nat)> {
    TopCounts(WeakPieces(rows), 6)
  }
}
