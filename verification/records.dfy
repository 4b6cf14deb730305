/** The records the reading dashboard aggregates, and the running tally
    `{count, totalWR, totalComp}` that every grouping in it accumulates. */
module Records {
  import opened Sequences

  datatype Option<+T> = None | Some(value: T)

  /** Student ids are compared with `===`; a single integer id space is
      assumed. */
  type StudentId = int

  /** A calendar date as any integer encoding that preserves date order:
      later dates are larger (a day ordinal, or a yyyymmdd number). */
  type Day = int

  /** One reading assessment. Scores are percentages; the reading level is
      the raw label of the data source, which need not be a known level. */
  datatype Assessment = Assessment(
    studentId: StudentId,
    date: Day,
    assessmentType: string,
    wordRecognition: real,
    comprehension: real,
    readingLevel: string)

  datatype Gender = Male | Female

  /** `gender` is None when the record has no (or an empty) gender. */
  datatype Student = Student(id: StudentId, name: string, gender: Option<Gender>)

  /** A group's running count and score totals. */
  datatype Tally = Tally(count: nat, totalWR: real, totalComp: real)
  {
    /** Counts one more assessment into the group. */
    function Add(a: Assessment): Tally
    {
      Tally(count + 1, totalWR + a.wordRecognition, totalComp + a.comprehension)
    }
  }

  /** The tally every group starts from. */
  const EmptyTally := Tally(0, 0.0, 0.0)

  /** The sum of the word-recognition scores. */
  function SumWR(xs: seq<Assessment>): real
  {
    if |xs| == 0 then 0.0 else xs[0].wordRecognition + SumWR(xs[1..])
  }

  /** The sum of the comprehension scores. */
  function SumComp(xs: seq<Assessment>): real
  {
    if |xs| == 0 then 0.0 else xs[0].comprehension + SumComp(xs[1..])
  }

  /** The reference meaning of a group's tally: how many records it holds
      and the sums of their two scores. */
  function Totals(xs: seq<Assessment>): Tally
  {
    Tally(|xs|, SumWR(xs), SumComp(xs))
  }

  /** Sums split over a concatenation. */
  lemma {:induction false} SumsAppend(xs: seq<Assessment>, ys: seq<Assessment>)
    ensures SumWR(xs + ys) == SumWR(xs) + SumWR(ys)
    ensures SumComp(xs + ys) == SumComp(xs) + SumComp(ys)
  {
    if |xs| > 0 {
      assert (xs + ys)[1..] == xs[1..] + ys;
      SumsAppend(xs[1..], ys);
    } else {
      assert xs + ys == ys;
    }
  }

  /** Counting one more record into a tally is the same as totalling the
      longer sequence. */
  lemma TotalsSnoc(xs: seq<Assessment>, a: Assessment)
    ensures Totals(xs + [a]) == Totals(xs).Add(a)
  {
    SumsAppend(xs, [a]);
    assert [a][1..] == [];
  }

  /** The running `reduce`/`forEach` accumulation, from the first record to
      the last: it always equals the reference totals. */
  function Accumulate(xs: seq<Assessment>): (t: Tally)
    ensures t == Totals(xs)
  {
    if |xs| == 0 then EmptyTally
    else
      var front := xs[..|xs| - 1];
      assert xs == front + [xs[|xs| - 1]];
      TotalsSnoc(front, xs[|xs| - 1]);
      Accumulate(front).Add(xs[|xs| - 1])
  }

  /** A group's tally over a selection of records, in terms of the
      selection's totals. */
  lemma TotalsOfFilterSnoc(xs: seq<Assessment>, a: Assessment, p: Assessment -> bool)
    ensures Totals(Filter(xs + [a], p))
         == if p(a) then Totals(Filter(xs, p)).Add(a) else Totals(Filter(xs, p))
  {
    assert (xs + [a])[..|xs + [a]| - 1] == xs;
    assert Filter(xs + [a], p) == Filter(xs, p) + (if p(a) then [a] else []);
    if p(a) {
      TotalsSnoc(Filter(xs, p), a);
    } else {
      assert Filter(xs, p) + [] == Filter(xs, p);
    }
  }

  /** The exact mean of a non-empty group's total. */
  function Mean(total: real, count: nat): real
    requires count > 0
  {
    total / count as real
  }

  /** Both scores of every record lie in the percentage range. */
  predicate ScoresInRange(xs: seq<Assessment>)
  {
    forall i :: 0 <= i < |xs| ==>
      0.0 <= xs[i].wordRecognition <= 100.0 && 0.0 <= xs[i].comprehension <= 100.0
  }

  /** Sums of in-range scores lie between 0 and 100 times the count. */
  lemma {:induction false} SumsInRange(xs: seq<Assessment>)
    requires ScoresInRange(xs)
    ensures 0.0 <= SumWR(xs) <= 100.0 * |xs| as real
    ensures 0.0 <= SumComp(xs) <= 100.0 * |xs| as real
  {
    if |xs| > 0 {
      assert ScoresInRange(xs[1..]) by {
        forall i | 0 <= i < |xs[1..]| ensures xs[1..][i] == xs[i + 1] { }
      }
      SumsInRange(xs[1..]);
    }
  }

  /** The mean of a total between 0 and 100 times the count is a percentage. */
  lemma MeanInRange(total: real, count: nat)
    requires count > 0 && 0.0 <= total <= 100.0 * count as real
    ensures 0.0 <= Mean(total, count) <= 100.0
  {
    var c := count as real;
    assert Mean(total, count) * c == total;
  }
}
