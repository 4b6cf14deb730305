/** The gender chart: assessments attributed to the gender of the student
    they belong to, one word-recognition and one comprehension average per
    gender. Assessments of unknown students, or of students without a
    gender, are left out of both bars. */
module GenderChart {
  import opened Sequences
  import opened Records

  /** The first student with id `id`, as Array.prototype.find returns it. */
  function FindStudent(students: seq<Student>, id: StudentId): (r: Option<Student>)
    ensures r.None? <==> forall i :: 0 <= i < |students| ==> students[i].id != id
    ensures r.Some? ==> exists i :: 0 <= i < |students| && students[i] == r.value && students[i].id == id
                                    && forall k :: 0 <= k < i ==> students[k].id != id
  {
    if |students| == 0 then None
    else if students[0].id == id then Some(students[0])
    else
      var r := FindStudent(students[1..], id);
      assert forall i :: 1 <= i < |students| ==> students[1..][i - 1] == students[i];
      if r.Some? then
        assert exists i :: 0 <= i < |students| && students[i] == r.value && students[i].id == id
                           && forall k :: 0 <= k < i ==> students[k].id != id by {
          var i :| 0 <= i < |students[1..]| && students[1..][i] == r.value && students[1..][i].id == id
                   && forall k :: 0 <= k < i ==> students[1..][k].id != id;
          assert students[i + 1] == r.value;
          forall k | 0 <= k < i + 1 ensures students[k].id != id {
            if k > 0 { assert students[k] == students[1..][k - 1]; }
          }
        }
        r
      else r
  }

  /** The gender an assessment counts towards, if any: that of the first
      student with its id, when that student has one. */
  function GenderOf(students: seq<Student>, a: Assessment): Option<Gender>
  {
    match FindStudent(students, a.studentId)
    case None => None
    case Some(s) => s.gender
  }

  /** Selects the assessments that count towards `g`. */
  function AttributedTo(students: seq<Student>, g: Gender): Assessment -> bool
  {
    (a: Assessment) => GenderOf(students, a) == Some(g)
  }

  /** Selects the assessments that count towards neither gender. */
  function Unattributed(students: seq<Student>): Assessment -> bool
  {
    (a: Assessment) => GenderOf(students, a).None?
  }

  /** The two buckets, both starting from zero. */
  datatype GenderTallies = GenderTallies(male: Tally, female: Tally)
  {
    function Get(g: Gender): Tally
    {
      match g
      case Male => male
      case Female => female
    }

    /** Counts one assessment into the bucket of `g`, leaving the other as
        it was. */
    function Record(g: Gender, a: Assessment): (r: GenderTallies)
      ensures r.Get(g) == Get(g).Add(a)
      ensures forall h :: h != g ==> r.Get(h) == Get(h)
    {
      match g
      case Male => this.(male := male.Add(a))
      case Female => this.(female := female.Add(a))
    }
  }

  const NoGenders := GenderTallies(EmptyTally, EmptyTally)

  /** The scan: every assessment with a gender is counted into that
      gender's bucket; the others are skipped. Each bucket ends up tallying
      exactly the assessments attributed to its gender. */
  function GroupByGender(students: seq<Student>, assessments: seq<Assessment>): (t: GenderTallies)
    ensures forall g :: t.Get(g) == Totals(Filter(assessments, AttributedTo(students, g)))
  {
    if |assessments| == 0 then NoGenders
    else
      var front := assessments[..|assessments| - 1];
      var a := assessments[|assessments| - 1];
      assert assessments == front + [a];
      var before := GroupByGender(students, front);
      var t := match GenderOf(students, a)
        case None => before
        case Some(g) => before.Record(g, a);
      assert forall g :: t.Get(g) == Totals(Filter(assessments, AttributedTo(students, g))) by {
        forall g ensures t.Get(g) == Totals(Filter(assessments, AttributedTo(students, g))) {
          TotalsOfFilterSnoc(front, a, AttributedTo(students, g));
        }
      }
      t
  }

  /** Each assessment goes to exactly one of the male bucket, the female
      bucket and neither, so the three selections share out the input. */
  lemma {:induction false} AttributionPartition(students: seq<Student>, assessments: seq<Assessment>)
    ensures |Filter(assessments, AttributedTo(students, Male))|
          + |Filter(assessments, AttributedTo(students, Female))|
          + |Filter(assessments, Unattributed(students))| == |assessments|
  {
    if |assessments| > 0 {
      var front := assessments[..|assessments| - 1];
      var a := assessments[|assessments| - 1];
      AttributionPartition(students, front);
      assert assessments == front + [a];
      FilterSnoc(front, a, AttributedTo(students, Male));
      FilterSnoc(front, a, AttributedTo(students, Female));
      FilterSnoc(front, a, Unattributed(students));
      var male := AttributedTo(students, Male)(a);
      var female := AttributedTo(students, Female)(a);
      var neither := Unattributed(students)(a);
      assert (if male then 1 else 0) + (if female then 1 else 0) + (if neither then 1 else 0) == 1 by {
        match GenderOf(students, a)
        case None =>
        case Some(g) => assert g == Male || g == Female;
      }
    }
  }

  /** Every assessment is counted in exactly one place: the male bucket,
      the female bucket, or neither. */
  lemma {:induction false} GenderPartition(students: seq<Student>, assessments: seq<Assessment>)
    ensures GroupByGender(students, assessments).male.count
          + GroupByGender(students, assessments).female.count
          + |Filter(assessments, Unattributed(students))| == |assessments|
  {
    var t := GroupByGender(students, assessments);
    assert t.male == t.Get(Male) && t.female == t.Get(Female);
    AttributionPartition(students, assessments);
  }

  /** An assessment whose student cannot be found, or has no gender, is in
      neither bucket. */
  lemma UnattributedCountsNowhere(students: seq<Student>, assessments: seq<Assessment>, k: nat)
    requires k < |assessments|
    requires (forall i :: 0 <= i < |students| ==> students[i].id != assessments[k].studentId)
          || (exists i :: 0 <= i < |students| && students[i].id == assessments[k].studentId
                          && students[i].gender.None?
                          && forall j :: 0 <= j < i ==> students[j].id != assessments[k].studentId)
    ensures forall g :: assessments[k] !in Filter(assessments, AttributedTo(students, g))
  {
    var a := assessments[k];
    var r := FindStudent(students, a.studentId);
    if r.Some? {
      var i :| 0 <= i < |students| && students[i].id == a.studentId && students[i].gender.None?
               && forall j :: 0 <= j < i ==> students[j].id != a.studentId;
      var i' :| 0 <= i' < |students| && students[i'] == r.value && students[i'].id == a.studentId
                && forall j :: 0 <= j < i' ==> students[j].id != a.studentId;
      assert i == i' by {
        assert !(i < i') && !(i' < i);
      }
    }
    forall g ensures a !in Filter(assessments, AttributedTo(students, g)) {
      FilterMembers(assessments, AttributedTo(students, g));
    }
  }

  /** One bar pair of the chart. */
  datatype GenderBar = GenderBar(avgWR: real, avgComp: real)

  /** A bucket's averages, 0 for a bucket no assessment was counted into. */
  function BarOf(t: Tally): GenderBar
  {
    if t.count > 0 then GenderBar(Mean(t.totalWR, t.count), Mean(t.totalComp, t.count))
    else GenderBar(0.0, 0.0)
  }

  /** The chart data: the male bar, then the female bar. Each is 0 when
      no assessment counts towards its gender, and otherwise the average of
      the assessments that do. */
  function GenderBars(students: seq<Student>, assessments: seq<Assessment>): (bars: seq<GenderBar>)
    ensures |bars| == 2
    ensures forall i :: 0 <= i < 2 ==>
      var sel := Filter(assessments, AttributedTo(students, if i == 0 then Male else Female));
      && (|sel| == 0 ==> bars[i] == GenderBar(0.0, 0.0))
      && (|sel| > 0 ==> bars[i].avgWR == SumWR(sel) / |sel| as real
                        && bars[i].avgComp == SumComp(sel) / |sel| as real)
  {
    var t := GroupByGender(students, assessments);
    assert t.male == t.Get(Male) && t.female == t.Get(Female);
    [BarOf(t.male), BarOf(t.female)]
  }

  /** With every score a percentage, every bar is a percentage. */
  lemma GenderBarsInPercentRange(students: seq<Student>, assessments: seq<Assessment>)
    requires ScoresInRange(assessments)
    ensures forall i :: 0 <= i < 2 ==>
      && 0.0 <= GenderBars(students, assessments)[i].avgWR <= 100.0
      && 0.0 <= GenderBars(students, assessments)[i].avgComp <= 100.0
  {
    forall g: Gender ensures ScoresInRange(Filter(assessments, AttributedTo(students, g))) {
      var sel := Filter(assessments, AttributedTo(students, g));
      FilterMembers(assessments, AttributedTo(students, g));
      forall i | 0 <= i < |sel|
        ensures 0.0 <= sel[i].wordRecognition <= 100.0 && 0.0 <= sel[i].comprehension <= 100.0
      {
        assert sel[i] in assessments;
      }
    }
    forall i | 0 <= i < 2
      ensures 0.0 <= GenderBars(students, assessments)[i].avgWR <= 100.0
      ensures 0.0 <= GenderBars(students, assessments)[i].avgComp <= 100.0
    {
      var sel := Filter(assessments, AttributedTo(students, if i == 0 then Male else Female));
      if |sel| > 0 {
        SumsInRange(sel);
        MeanInRange(SumWR(sel), |sel|);
        MeanInRange(SumComp(sel), |sel|);
      }
    }
  }
}
