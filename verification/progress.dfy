/** The student progress table: for every student with at least one
    assessment, the first and the last assessment by date, the change in
    both scores between them, and the reading level of the last one. */
module Progress {
  import opened Sequences
  import opened Sorting
  import opened Records

  /** Selects the assessments of the student with id `id`. */
  function BelongsTo(id: StudentId): Assessment -> bool
  {
    (a: Assessment) => a.studentId == id
  }

  /** The sort key: the assessment's date. */
  function DateOf(): Assessment -> int
  {
    (a: Assessment) => a.date
  }

  /** A student's assessments, in input order. */
  function AssessmentsOf(id: StudentId, assessments: seq<Assessment>): seq<Assessment>
  {
    Filter(assessments, BelongsTo(id))
  }

  /** One line of the progress table. */
  datatype ProgressRow = ProgressRow(
    name: string,
    firstDate: Day,
    lastDate: Day,
    wrProgress: real,
    compProgress: real,
    currentLevel: string)

  /** Some assessment belongs to the student with id `id`. */
  predicate Assessed(id: StudentId, assessments: seq<Assessment>)
  {
    exists k :: 0 <= k < |assessments| && assessments[k].studentId == id
  }

  /** A student has an assessment exactly when the selection is non-empty. */
  lemma AssessedIff(id: StudentId, assessments: seq<Assessment>)
    ensures |AssessmentsOf(id, assessments)| > 0 <==> Assessed(id, assessments)
  {
    FilterEmpty(assessments, BelongsTo(id));
  }

  /** `row` compares the student's earliest assessment (the first in input
      order among those on the earliest date) with their latest one (the
      last in input order among those on the latest date). */
  predicate ComparesEndpoints(row: ProgressRow, student: Student, assessments: seq<Assessment>)
  {
    var mine := AssessmentsOf(student.id, assessments);
    && |mine| > 0
    && var first := EarliestOf(mine, DateOf());
       var last := LatestOf(mine, DateOf());
       && row.name == student.name
       && row.firstDate == MinKey(mine, DateOf())
       && row.lastDate == MaxKey(mine, DateOf())
       && row.wrProgress == last.wordRecognition - first.wordRecognition
       && row.compProgress == last.comprehension - first.comprehension
       && row.currentLevel == last.readingLevel
  }

  /** The row of one student: their assessments sorted by date, the first
      and the last of the sorted list compared. None when the student has no
      assessment, so that no row is written. */
  function ProgressOf(student: Student, assessments: seq<Assessment>): (r: Option<ProgressRow>)
    ensures r.None? <==> !Assessed(student.id, assessments)
    ensures r.Some? ==> ComparesEndpoints(r.value, student, assessments)
  {
    var mine := AssessmentsOf(student.id, assessments);
    var sorted := SortBy(mine, DateOf());
    AssessedIff(student.id, assessments);
    if |sorted| == 0 then None
    else
      var first := sorted[0];
      var last := sorted[|sorted| - 1];
      SortByFirst(mine, DateOf());
      SortByLast(mine, DateOf());
      Some(ProgressRow(student.name, first.date, last.date,
                       last.wordRecognition - first.wordRecognition,
                       last.comprehension - first.comprehension,
                       last.readingLevel))
  }

  /** The compared assessments are the student's own, and among equal dates
      the row's first assessment is the earliest of them in input order and
      its last assessment the latest. */
  lemma ProgressEndpoints(student: Student, assessments: seq<Assessment>)
    requires ProgressOf(student, assessments).Some?
    ensures var mine := AssessmentsOf(student.id, assessments);
      var row := ProgressOf(student, assessments).value;
      && (exists i :: 0 <= i < |mine| && mine[i] == EarliestOf(mine, DateOf())
                      && mine[i].date == row.firstDate
                      && forall k :: 0 <= k < i ==> mine[k].date > row.firstDate)
      && (exists j :: 0 <= j < |mine| && mine[j] == LatestOf(mine, DateOf())
                      && mine[j].date == row.lastDate
                      && forall k :: j < k < |mine| ==> mine[k].date < row.lastDate)
      && (forall k :: 0 <= k < |mine| ==>
            mine[k].studentId == student.id && row.firstDate <= mine[k].date <= row.lastDate)
  {
    var mine := AssessmentsOf(student.id, assessments);
    EarliestOfIsFirstMin(mine, DateOf());
    LatestOfIsLastMax(mine, DateOf());
    FilterSatisfies(assessments, BelongsTo(student.id));
    assert forall k :: 0 <= k < |mine| ==> DateOf()(mine[k]) == mine[k].date;
  }

  /** A student with a single assessment, among any number of other
      students' assessments, compares it with itself: both dates are its
      date and both deltas are zero. */
  lemma SingleAssessmentNoProgress(student: Student, assessments: seq<Assessment>)
    requires |AssessmentsOf(student.id, assessments)| == 1
    ensures var a := AssessmentsOf(student.id, assessments)[0];
      ProgressOf(student, assessments)
        == Some(ProgressRow(student.name, a.date, a.date, 0.0, 0.0, a.readingLevel))
  {
    var mine := AssessmentsOf(student.id, assessments);
    AssessedIff(student.id, assessments);
    assert EarliestOf(mine, DateOf()) in mine;
    assert LatestOf(mine, DateOf()) in mine;
  }

  /** Two assessments listed latest first: the sort still compares January
      with June, giving deltas of 15 points and June's reading level. */
  lemma TwoAssessmentExample()
    ensures var jan := Assessment(1, 20240101, "Running Record", 70.0, 65.0, "Instructional");
            var jun := Assessment(1, 20240601, "Running Record", 85.0, 80.0, "Independent");
            ProgressOf(Student(1, "Ada", None), [jun, jan])
              == Some(ProgressRow("Ada", 20240101, 20240601, 15.0, 15.0, "Independent"))
  {
    var jan := Assessment(1, 20240101, "Running Record", 70.0, 65.0, "Instructional");
    var jun := Assessment(1, 20240601, "Running Record", 85.0, 80.0, "Independent");
    var xs := [jun, jan];
    FilterAll(xs, BelongsTo(1));
    var mine := AssessmentsOf(1, xs);
    assert mine == xs;
    assert Assessed(1, xs) by { assert xs[0].studentId == 1; }
    var m := MinKey(mine, DateOf());
    var n := MaxKey(mine, DateOf());
    assert m == 20240101 by {
      assert m <= DateOf()(mine[1]);
    }
    assert n == 20240601 by {
      assert DateOf()(mine[0]) <= n;
    }
    assert EarliestOf(mine, DateOf()) == jan;
    assert LatestOf(mine, DateOf()) == jun;
  }

  /** `rows` is the table for the first `j` students: one row per assessed
      student among them, in order, and `owners` names each row's student. */
  predicate TableOfPrefix(students: seq<Student>, assessments: seq<Assessment>, j: nat,
                          rows: seq<ProgressRow>, owners: seq<nat>)
    requires j <= |students|
  {
    && |owners| == |rows|
    && (forall k :: 0 <= k < |owners| ==> owners[k] < j)
    && (forall k, l :: 0 <= k < l < |owners| ==> owners[k] < owners[l])
    && (forall k :: 0 <= k < |rows| ==> ProgressOf(students[owners[k]], assessments) == Some(rows[k]))
    && (forall i :: 0 <= i < j ==> (i in owners <==> Assessed(students[i].id, assessments)))
  }

  /** Adding the next student keeps the prefix table: a row is appended
      exactly when that student has an assessment. */
  lemma TableOfPrefixAppend(students: seq<Student>, assessments: seq<Assessment>, j: nat,
                            rows: seq<ProgressRow>, owners: seq<nat>)
    requires j < |students| && TableOfPrefix(students, assessments, j, rows, owners)
    requires ProgressOf(students[j], assessments).Some?
    ensures TableOfPrefix(students, assessments, j + 1,
                          rows + [ProgressOf(students[j], assessments).value], owners + [j])
  {
    var owners' := owners + [j];
    forall i | 0 <= i < j + 1
      ensures i in owners' <==> Assessed(students[i].id, assessments)
    {
      assert i in owners' <==> i in owners || i == j;
    }
  }

  lemma TableOfPrefixSkip(students: seq<Student>, assessments: seq<Assessment>, j: nat,
                          rows: seq<ProgressRow>, owners: seq<nat>)
    requires j < |students| && TableOfPrefix(students, assessments, j, rows, owners)
    requires ProgressOf(students[j], assessments).None?
    ensures TableOfPrefix(students, assessments, j + 1, rows, owners)
  {
  }

  /** The table: one row per student that has an assessment, in the order
      of the student list. `owners[k]` is the position of the student that
      row `k` belongs to. */
  method StudentProgress(students: seq<Student>, assessments: seq<Assessment>)
    returns (rows: seq<ProgressRow>, owners: seq<nat>)
    ensures |owners| == |rows|
    ensures forall k :: 0 <= k < |owners| ==> owners[k] < |students|
    ensures forall k, l :: 0 <= k < l < |owners| ==> owners[k] < owners[l]
    ensures forall k :: 0 <= k < |rows| ==>
      ProgressOf(students[owners[k]], assessments) == Some(rows[k])
    ensures forall j :: 0 <= j < |students| ==>
      (j in owners <==> Assessed(students[j].id, assessments))
  {
    rows := [];
    owners := [];
    var j: nat := 0;
    while j < |students|
      invariant j <= |students|
      invariant TableOfPrefix(students, assessments, j, rows, owners)
    {
      var r := ProgressOf(students[j], assessments);
      if r.Some? {
        TableOfPrefixAppend(students, assessments, j, rows, owners);
        rows := rows + [r.value];
        owners := owners + [j];
      } else {
        TableOfPrefixSkip(students, assessments, j, rows, owners);
      }
      j := j + 1;
    }
  }
}
