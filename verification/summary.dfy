/** The overall summary cards: the number of assessments and the mean of
    each score across all of them. An empty list has no summary at all. */
module OverallSummary {
  import opened Records

  datatype Summary = Summary(count: nat, avgWR: real, avgComp: real)

  /** None stands for the early return on an empty list; otherwise the two
      running totals are divided by the number of assessments. */
  function Summarize(assessments: seq<Assessment>): (r: Option<Summary>)
    ensures r.None? <==> |assessments| == 0
    ensures r.Some? ==>
      && r.value.count == |assessments|
      && r.value.avgWR == SumWR(assessments) / |assessments| as real
      && r.value.avgComp == SumComp(assessments) / |assessments| as real
  {
    if |assessments| == 0 then None
    else
      var t := Accumulate(assessments);
      Some(Summary(t.count, Mean(t.totalWR, t.count), Mean(t.totalComp, t.count)))
  }

  /** With every score a percentage, both summary averages are percentages. */
  lemma SummaryInPercentRange(assessments: seq<Assessment>)
    requires ScoresInRange(assessments)
    ensures Summarize(assessments).Some? ==>
      && 0.0 <= Summarize(assessments).value.avgWR <= 100.0
      && 0.0 <= Summarize(assessments).value.avgComp <= 100.0
  {
    if |assessments| > 0 {
      SumsInRange(assessments);
      MeanInRange(SumWR(assessments), |assessments|);
      MeanInRange(SumComp(assessments), |assessments|);
    }
  }
}
