/** The reading-level table: assessments grouped under the three known
    reading levels, one row per non-empty level in a fixed order, with the
    level's share of all assessments and its mean scores. */
module ReadingLevels {
  import opened Sequences
  import opened Records

  datatype Level = Independent | Instructional | Frustration

  /** The order in which level rows are listed. */
  const LevelOrder: seq<Level> := [Independent, Instructional, Frustration]

  /** The label a level carries in the data and in the table. */
  function Label(l: Level): string
  {
    match l
    case Independent => "Independent"
    case Instructional => "Instructional"
    case Frustration => "Frustration"
  }

  /** The position of a level in the display order. */
  function Rank(l: Level): (r: nat)
    ensures r < |LevelOrder| && LevelOrder[r] == l
  {
    match l
    case Independent => 0
    case Instructional => 1
    case Frustration => 2
  }

  /** Recognises a reading-level label; any other label is no level. */
  function ParseLevel(text: string): (r: Option<Level>)
    ensures r.Some? ==> Label(r.value) == text
    ensures forall l: Level :: text == Label(l) ==> r == Some(l)
  {
    if text == "Independent" then Some(Independent)
    else if text == "Instructional" then Some(Instructional)
    else if text == "Frustration" then Some(Frustration)
    else None
  }

  /** Selects the assessments labelled with level `l`. */
  function HasLevel(l: Level): Assessment -> bool
  {
    (a: Assessment) => ParseLevel(a.readingLevel) == Some(l)
  }

  /** Selects the assessments whose label is not a known level. */
  function Unrecognised(): Assessment -> bool
  {
    (a: Assessment) => ParseLevel(a.readingLevel).None?
  }

  /** One running tally per level, all three initialised before the scan. */
  datatype LevelTallies = LevelTallies(independent: Tally, instructional: Tally, frustration: Tally)
  {
    function Get(l: Level): Tally
    {
      match l
      case Independent => independent
      case Instructional => instructional
      case Frustration => frustration
    }

    /** Counts one assessment into the tally of its level; an assessment with
        an unknown label changes nothing. */
    function Record(a: Assessment): (r: LevelTallies)
      ensures forall l :: r.Get(l) == if HasLevel(l)(a) then Get(l).Add(a) else Get(l)
    {
      match ParseLevel(a.readingLevel)
      case None => this
      case Some(Independent) => this.(independent := independent.Add(a))
      case Some(Instructional) => this.(instructional := instructional.Add(a))
      case Some(Frustration) => this.(frustration := frustration.Add(a))
    }
  }

  const NoLevels := LevelTallies(EmptyTally, EmptyTally, EmptyTally)

  /** The grouping scan: each level's tally holds exactly the assessments
      carrying that level's label. */
  function GroupByLevel(assessments: seq<Assessment>): (t: LevelTallies)
    ensures forall l :: t.Get(l) == Totals(Filter(assessments, HasLevel(l)))
  {
    if |assessments| == 0 then NoLevels
    else
      var front := assessments[..|assessments| - 1];
      var a := assessments[|assessments| - 1];
      assert assessments == front + [a];
      var t := GroupByLevel(front).Record(a);
      assert forall l :: t.Get(l) == Totals(Filter(assessments, HasLevel(l))) by {
        forall l ensures t.Get(l) == Totals(Filter(assessments, HasLevel(l))) {
          TotalsOfFilterSnoc(front, a, HasLevel(l));
        }
      }
      t
  }

  /** The number of assessments labelled with level `l`. */
  function LevelCount(assessments: seq<Assessment>, l: Level): nat
  {
    |Filter(assessments, HasLevel(l))|
  }

  /** Every assessment is counted under at most one level: the three level
      counts and the unrecognised ones add up to the whole list. */
  lemma {:induction false} LevelPartition(assessments: seq<Assessment>)
    ensures LevelCount(assessments, Independent) + LevelCount(assessments, Instructional)
          + LevelCount(assessments, Frustration) + |Filter(assessments, Unrecognised())|
         == |assessments|
  {
    if |assessments| > 0 {
      var front := assessments[..|assessments| - 1];
      LevelPartition(front);
    }
  }

  /** The level counts add up to the list length exactly when every label
      is a known level, and never exceed it. */
  lemma LevelCountsCoverKnownLabels(assessments: seq<Assessment>)
    ensures LevelCount(assessments, Independent) + LevelCount(assessments, Instructional)
          + LevelCount(assessments, Frustration) <= |assessments|
    ensures LevelCount(assessments, Independent) + LevelCount(assessments, Instructional)
          + LevelCount(assessments, Frustration) == |assessments|
        <==> forall k :: 0 <= k < |assessments| ==> ParseLevel(assessments[k].readingLevel).Some?
  {
    LevelPartition(assessments);
    FilterEmpty(assessments, Unrecognised());
  }

  /** One line of the reading-level table. */
  datatype LevelRow = LevelRow(level: Level, count: nat, percentage: real, avgWR: real, avgComp: real)

  /** The row for one level, or nothing when the level has no assessments.
      The share is taken of all `total` assessments, recognised or not. */
  function RowOf(l: Level, t: Tally, total: nat): seq<LevelRow>
    requires t.count <= total
  {
    if t.count > 0 then
      [LevelRow(l, t.count, (t.count as real / total as real) * 100.0,
                Mean(t.totalWR, t.count), Mean(t.totalComp, t.count))]
    else []
  }

  /** The three candidate rows in display order. */
  function RowsOf(t: LevelTallies, total: nat): seq<LevelRow>
    requires t.independent.count + t.instructional.count + t.frustration.count <= total
  {
    RowOf(Independent, t.independent, total)
      + RowOf(Instructional, t.instructional, total)
      + RowOf(Frustration, t.frustration, total)
  }

  /** A row carries its level's tally: the count, the share of `total`, and
      means over the level's own count. */
  predicate RowCarries(row: LevelRow, t: Tally, total: nat)
  {
    && row.count == t.count > 0
    && total > 0
    && row.percentage == (t.count as real / total as real) * 100.0
    && row.avgWR == Mean(t.totalWR, t.count)
    && row.avgComp == Mean(t.totalComp, t.count)
  }

  /** The candidate rows come out in display order, a row exactly for each
      level with a positive count, each carrying its level's tally. */
  lemma RowsOfShape(t: LevelTallies, total: nat)
    requires t.independent.count + t.instructional.count + t.frustration.count <= total
    ensures |RowsOf(t, total)| <= |LevelOrder|
    ensures forall i, j :: 0 <= i < j < |RowsOf(t, total)| ==>
      Rank(RowsOf(t, total)[i].level) < Rank(RowsOf(t, total)[j].level)
    ensures forall i :: 0 <= i < |RowsOf(t, total)| ==>
      RowCarries(RowsOf(t, total)[i], t.Get(RowsOf(t, total)[i].level), total)
    ensures forall l: Level :: (exists i :: 0 <= i < |RowsOf(t, total)| && RowsOf(t, total)[i].level == l)
                           <==> t.Get(l).count > 0
  {
    var a := RowOf(Independent, t.independent, total);
    var b := RowOf(Instructional, t.instructional, total);
    var c := RowOf(Frustration, t.frustration, total);
    var rows := RowsOf(t, total);
    assert rows == a + b + c;
    forall l: Level
      ensures (exists i :: 0 <= i < |rows| && rows[i].level == l) <==> t.Get(l).count > 0
    {
      if t.Get(l).count > 0 {
        var i := match l
          case Independent => 0
          case Instructional => |a|
          case Frustration => |a| + |b|;
        assert rows[i].level == l;
      }
    }
  }

  /** A row faithfully describes its level's assessments: the count, the
      share of the whole list, and means over that level's own count. */
  predicate DescribesLevel(row: LevelRow, assessments: seq<Assessment>)
  {
    var sel := Filter(assessments, HasLevel(row.level));
    && row.count == |sel| > 0
    && row.percentage == (|sel| as real / |assessments| as real) * 100.0
    && row.avgWR == SumWR(sel) / |sel| as real
    && row.avgComp == SumComp(sel) / |sel| as real
  }

  /** The reading-level table: rows in the fixed level order, a row exactly
      for the levels some assessment carries, each describing its level. */
  function LevelRows(assessments: seq<Assessment>): (rows: seq<LevelRow>)
    ensures |rows| <= |LevelOrder|
    ensures forall i, j :: 0 <= i < j < |rows| ==> Rank(rows[i].level) < Rank(rows[j].level)
    ensures forall i :: 0 <= i < |rows| ==> DescribesLevel(rows[i], assessments)
    ensures forall l: Level :: (exists i :: 0 <= i < |rows| && rows[i].level == l)
                           <==> (exists k :: 0 <= k < |assessments| && HasLevel(l)(assessments[k]))
  {
    var t := GroupByLevel(assessments);
    var n := |assessments|;
    assert t.independent == t.Get(Independent);
    assert t.instructional == t.Get(Instructional);
    assert t.frustration == t.Get(Frustration);
    LevelCountsCoverKnownLabels(assessments);
    var rows := RowsOf(t, n);
    RowsOfShape(t, n);
    forall l: Level
      ensures t.Get(l).count > 0 <==> (exists k :: 0 <= k < n && HasLevel(l)(assessments[k]))
    {
      FilterEmpty(assessments, HasLevel(l));
    }
    forall i | 0 <= i < |rows|
      ensures DescribesLevel(rows[i], assessments)
    {
      var l := rows[i].level;
      assert RowCarries(rows[i], t.Get(l), n);
      assert t.Get(l) == Totals(Filter(assessments, HasLevel(l)));
    }
    rows
  }

  /** The sum of the percentage column. */
  function SumPercentages(rows: seq<LevelRow>): real
  {
    if |rows| == 0 then 0.0 else rows[0].percentage + SumPercentages(rows[1..])
  }

  lemma {:induction false} SumPercentagesAppend(xs: seq<LevelRow>, ys: seq<LevelRow>)
    ensures SumPercentages(xs + ys) == SumPercentages(xs) + SumPercentages(ys)
  {
    if |xs| > 0 {
      assert (xs + ys)[1..] == xs[1..] + ys;
      SumPercentagesAppend(xs[1..], ys);
    } else {
      assert xs + ys == ys;
    }
  }

  /** When every label is a known level the shares add up to 100 exactly
      (before the one-decimal rounding of the display). An empty list gives
      an empty table. */
  lemma PercentagesSumToHundred(assessments: seq<Assessment>)
    requires forall k :: 0 <= k < |assessments| ==> ParseLevel(assessments[k].readingLevel).Some?
    ensures |assessments| == 0 ==> LevelRows(assessments) == []
    ensures |assessments| > 0 ==> SumPercentages(LevelRows(assessments)) == 100.0
  {
    var n := |assessments|;
    var t := GroupByLevel(assessments);
    assert t.independent == t.Get(Independent);
    assert t.instructional == t.Get(Instructional);
    assert t.frustration == t.Get(Frustration);
    LevelCountsCoverKnownLabels(assessments);
    assert LevelRows(assessments) == RowsOf(t, n);
    if n > 0 {
      SharesOfFullTallies(t, n);
    }
  }

  /** A candidate row contributes its level's share, or nothing. */
  lemma RowOfShare(l: Level, t: Tally, total: nat)
    requires t.count <= total && total > 0
    ensures SumPercentages(RowOf(l, t, total)) == (t.count as real / total as real) * 100.0
  {
  }

  /** Three shares of counts that make up the whole add up to 100. */
  lemma SharesAddUp(a: real, b: real, c: real, n: real)
    requires n > 0.0 && a + b + c == n
    ensures (a / n) * 100.0 + (b / n) * 100.0 + (c / n) * 100.0 == 100.0
  {
    assert a / n + b / n + c / n == (a + b + c) / n;
  }

  /** The shares of three counts that make up the whole add up to 100. */
  lemma SharesOfFullTallies(t: LevelTallies, total: nat)
    requires total > 0
    requires t.independent.count + t.instructional.count + t.frustration.count == total
    ensures SumPercentages(RowsOf(t, total)) == 100.0
  {
    var a := RowOf(Independent, t.independent, total);
    var b := RowOf(Instructional, t.instructional, total);
    var c := RowOf(Frustration, t.frustration, total);
    SumPercentagesAppend(a + b, c);
    SumPercentagesAppend(a, b);
    RowOfShare(Independent, t.independent, total);
    RowOfShare(Instructional, t.instructional, total);
    RowOfShare(Frustration, t.frustration, total);
    SharesAddUp(t.independent.count as real, t.instructional.count as real,
                t.frustration.count as real, total as real);
  }

  /** A worked example: two Independent assessments and one Frustration
      assessment give an Independent row and a Frustration row, with no
      Instructional row. */
  lemma ThreeAssessmentExample()
    ensures LevelRows([
        Assessment(1, 0, "Running Record", 90.0, 88.0, "Independent"),
        Assessment(2, 0, "Running Record", 80.0, 82.0, "Independent"),
        Assessment(3, 0, "Running Record", 40.0, 35.0, "Frustration")])
      == [LevelRow(Independent, 2, 200.0 / 3.0, 85.0, 85.0),
          LevelRow(Frustration, 1, 100.0 / 3.0, 40.0, 35.0)]
  {
    var x := Assessment(1, 0, "Running Record", 90.0, 88.0, "Independent");
    var y := Assessment(2, 0, "Running Record", 80.0, 82.0, "Independent");
    var z := Assessment(3, 0, "Running Record", 40.0, 35.0, "Frustration");
    assert [x, y, z][..2] == [x, y];
    assert [x, y][..1] == [x];
    assert [x][..0] == [];
    assert GroupByLevel([]) == NoLevels;
    var t1 := GroupByLevel([x]);
    assert t1 == NoLevels.Record(x);
    var t2 := GroupByLevel([x, y]);
    assert t2 == t1.Record(y);
    var t := GroupByLevel([x, y, z]);
    assert t == t2.Record(z);
    assert t == LevelTallies(Tally(2, 170.0, 170.0), EmptyTally, Tally(1, 40.0, 35.0));
    assert LevelRows([x, y, z]) == RowsOf(t, 3);
  }
}
