/** The assessment-type table and chart: assessments grouped by their
    data-driven type label, one group per distinct label, listed in the
    order JavaScript enumerates an object's keys. */
module AssessmentTypes {
  import opened Sequences
  import opened Sorting
  import opened Records

  /** One key of the grouping object and its tally. */
  datatype TypeGroup = TypeGroup(name: string, tally: Tally)

  /** Selects the assessments of type `name`. */
  function HasType(name: string): Assessment -> bool
  {
    (a: Assessment) => a.assessmentType == name
  }

  /** Some assessment has type `name`. */
  predicate Occurs(assessments: seq<Assessment>, name: string)
  {
    exists k :: 0 <= k < |assessments| && assessments[k].assessmentType == name
  }

  /** The position of the first assessment of type `name`. */
  function FirstIndex(assessments: seq<Assessment>, name: string): (k: nat)
    requires Occurs(assessments, name)
    ensures k < |assessments| && assessments[k].assessmentType == name
    ensures forall j :: 0 <= j < k ==> assessments[j].assessmentType != name
  {
    if assessments[0].assessmentType == name then 0
    else
      assert Occurs(assessments[1..], name) by {
        var k :| 0 <= k < |assessments| && assessments[k].assessmentType == name;
        assert assessments[1..][k - 1] == assessments[k];
      }
      1 + FirstIndex(assessments[1..], name)
  }

  /** Appending a record leaves the first occurrence of a type that already
      occurs unchanged, and makes a new type first occur at the end. */
  lemma FirstIndexSnoc(assessments: seq<Assessment>, a: Assessment, name: string)
    requires Occurs(assessments, name) || a.assessmentType == name
    ensures Occurs(assessments + [a], name)
    ensures Occurs(assessments, name) ==>
      FirstIndex(assessments + [a], name) == FirstIndex(assessments, name)
    ensures !Occurs(assessments, name) ==> FirstIndex(assessments + [a], name) == |assessments|
  {
    var xs := assessments + [a];
    if Occurs(assessments, name) {
      var k :| 0 <= k < |assessments| && assessments[k].assessmentType == name;
      assert xs[k] == assessments[k];
      var k1 := FirstIndex(xs, name);
      var k2 := FirstIndex(assessments, name);
      assert xs[k2] == assessments[k2];
      assert k1 <= k2;
      assert xs[k1] == assessments[k1];
    } else {
      assert xs[|assessments|] == a;
    }
  }

  /** The position of the group named `name`, or the number of groups when
      there is none yet. */
  function IndexOfName(groups: seq<TypeGroup>, name: string): (i: nat)
    ensures i <= |groups|
    ensures i < |groups| ==> groups[i].name == name
    ensures forall j :: 0 <= j < i ==> groups[j].name != name
  {
    if |groups| == 0 then 0
    else if groups[0].name == name then 0
    else 1 + IndexOfName(groups[1..], name)
  }

  /** Counts one assessment into the group of its type, creating the group
      at the end the first time the type is seen. */
  function RecordType(groups: seq<TypeGroup>, a: Assessment): seq<TypeGroup>
  {
    var i := IndexOfName(groups, a.assessmentType);
    if i < |groups| then groups[i := groups[i].(tally := groups[i].tally.Add(a))]
    else groups + [TypeGroup(a.assessmentType, EmptyTally.Add(a))]
  }

  /** The groups' names are pairwise distinct. */
  predicate DistinctNames(groups: seq<TypeGroup>)
  {
    forall i, j :: 0 <= i < j < |groups| ==> groups[i].name != groups[j].name
  }

  /** Every group is named after a type that occurs. */
  predicate NamesOccur(groups: seq<TypeGroup>, assessments: seq<Assessment>)
  {
    forall i :: 0 <= i < |groups| ==> Occurs(assessments, groups[i].name)
  }

  /** Every assessment's type names a group. */
  predicate TypesCovered(groups: seq<TypeGroup>, assessments: seq<Assessment>)
  {
    forall k :: 0 <= k < |assessments| ==>
      exists i :: 0 <= i < |groups| && groups[i].name == assessments[k].assessmentType
  }

  /** Every group tallies exactly the assessments of its type. */
  predicate TalliesMatch(groups: seq<TypeGroup>, assessments: seq<Assessment>)
  {
    forall i :: 0 <= i < |groups| ==>
      groups[i].tally == Totals(Filter(assessments, HasType(groups[i].name)))
  }

  /** The groups are listed in the order their types first appear. */
  predicate FirstSeenOrder(groups: seq<TypeGroup>, assessments: seq<Assessment>)
    requires NamesOccur(groups, assessments)
  {
    forall i, j :: 0 <= i < j < |groups| ==>
      FirstIndex(assessments, groups[i].name) < FirstIndex(assessments, groups[j].name)
  }

  /** What the grouping object holds after a scan of `assessments`: one key
      per distinct type, in order of first appearance, each tallying exactly
      the assessments of its type. */
  predicate Groups(groups: seq<TypeGroup>, assessments: seq<Assessment>)
  {
    && DistinctNames(groups)
    && NamesOccur(groups, assessments)
    && TypesCovered(groups, assessments)
    && TalliesMatch(groups, assessments)
    && FirstSeenOrder(groups, assessments)
  }

  /** The grouping scan (the loop is written twice in the dashboard, once
      for the table and once for the chart; both are this function). */
  function GroupByType(assessments: seq<Assessment>): (groups: seq<TypeGroup>)
    ensures Groups(groups, assessments)
  {
    if |assessments| == 0 then []
    else
      var front := assessments[..|assessments| - 1];
      var a := assessments[|assessments| - 1];
      assert assessments == front + [a];
      var before := GroupByType(front);
      RecordTypeKeepsGroups(before, front, a);
      RecordType(before, a)
  }

  /** The shape of one scan step: an existing group is updated in place, a
      new type is appended at the end. */
  lemma RecordTypeShape(groups: seq<TypeGroup>, a: Assessment)
    ensures var i := IndexOfName(groups, a.assessmentType);
            var r := RecordType(groups, a);
            && (forall j :: 0 <= j < |groups| ==> j < |r| && r[j].name == groups[j].name)
            && (i < |groups| ==>
                  && |r| == |groups| && r[i].tally == groups[i].tally.Add(a)
                  && (forall j :: 0 <= j < |groups| && j != i ==> r[j].tally == groups[j].tally))
            && (i == |groups| ==> |r| == |groups| + 1 && r[i] == TypeGroup(a.assessmentType, EmptyTally.Add(a)))
  {
  }

  /** A type that names no group has not occurred. */
  lemma NewTypeHasNotOccurred(groups: seq<TypeGroup>, assessments: seq<Assessment>, a: Assessment)
    requires TypesCovered(groups, assessments)
    requires IndexOfName(groups, a.assessmentType) == |groups|
    ensures !Occurs(assessments, a.assessmentType)
  {
    forall k | 0 <= k < |assessments| ensures assessments[k].assessmentType != a.assessmentType {
      var j :| 0 <= j < |groups| && groups[j].name == assessments[k].assessmentType;
    }
  }

  lemma RecordTypeDistinct(groups: seq<TypeGroup>, a: Assessment)
    requires DistinctNames(groups)
    ensures DistinctNames(RecordType(groups, a))
  {
    RecordTypeShape(groups, a);
  }

  lemma RecordTypeCovers(groups: seq<TypeGroup>, assessments: seq<Assessment>, a: Assessment)
    requires TypesCovered(groups, assessments)
    ensures TypesCovered(RecordType(groups, a), assessments + [a])
  {
    var xs := assessments + [a];
    var r := RecordType(groups, a);
    var i := IndexOfName(groups, a.assessmentType);
    RecordTypeShape(groups, a);
    forall k | 0 <= k < |xs| ensures exists j :: 0 <= j < |r| && r[j].name == xs[k].assessmentType {
      if k < |assessments| {
        assert xs[k] == assessments[k];
        var j :| 0 <= j < |groups| && groups[j].name == assessments[k].assessmentType;
        assert r[j].name == groups[j].name;
      } else {
        assert xs[k] == a;
        assert r[i].name == a.assessmentType;
      }
    }
  }

  lemma RecordTypeOccurs(groups: seq<TypeGroup>, assessments: seq<Assessment>, a: Assessment)
    requires NamesOccur(groups, assessments)
    ensures NamesOccur(RecordType(groups, a), assessments + [a])
  {
    var xs := assessments + [a];
    var r := RecordType(groups, a);
    RecordTypeShape(groups, a);
    forall j | 0 <= j < |r| ensures Occurs(xs, r[j].name) {
      if j < |groups| {
        FirstIndexSnoc(assessments, a, groups[j].name);
      } else {
        FirstIndexSnoc(assessments, a, a.assessmentType);
      }
    }
  }

  lemma RecordTypeTallies(groups: seq<TypeGroup>, assessments: seq<Assessment>, a: Assessment)
    requires DistinctNames(groups)
    requires TalliesMatch(groups, assessments) && TypesCovered(groups, assessments)
    ensures TalliesMatch(RecordType(groups, a), assessments + [a])
  {
    var xs := assessments + [a];
    var r := RecordType(groups, a);
    var i := IndexOfName(groups, a.assessmentType);
    RecordTypeShape(groups, a);
    forall j | 0 <= j < |r| ensures r[j].tally == Totals(Filter(xs, HasType(r[j].name))) {
      TotalsOfFilterSnoc(assessments, a, HasType(r[j].name));
      if j < |groups| && j != i {
        assert groups[j].name != a.assessmentType by {
          if j > i && i < |groups| {
            assert groups[i].name != groups[j].name;
          }
        }
      }
      if j == |groups| {
        NewTypeHasNotOccurred(groups, assessments, a);
        FilterEmpty(assessments, HasType(a.assessmentType));
        assert Totals([]) == EmptyTally;
      }
    }
  }

  /** A scan step keeps the first occurrence of every existing group's type. */
  lemma RecordTypeKeepsFirstIndex(groups: seq<TypeGroup>, assessments: seq<Assessment>, a: Assessment)
    requires NamesOccur(groups, assessments)
    ensures NamesOccur(RecordType(groups, a), assessments + [a])
    ensures forall j :: 0 <= j < |groups| ==>
      FirstIndex(assessments + [a], RecordType(groups, a)[j].name)
        == FirstIndex(assessments, groups[j].name) < |assessments|
  {
    var xs := assessments + [a];
    var r := RecordType(groups, a);
    RecordTypeOccurs(groups, assessments, a);
    RecordTypeShape(groups, a);
    forall j | 0 <= j < |groups|
      ensures FirstIndex(xs, r[j].name) == FirstIndex(assessments, groups[j].name) < |assessments|
    {
      FirstIndexSnoc(assessments, a, groups[j].name);
    }
  }

  lemma RecordTypeOrder(groups: seq<TypeGroup>, assessments: seq<Assessment>, a: Assessment)
    requires NamesOccur(groups, assessments) && TypesCovered(groups, assessments)
    requires FirstSeenOrder(groups, assessments)
    ensures NamesOccur(RecordType(groups, a), assessments + [a])
    ensures FirstSeenOrder(RecordType(groups, a), assessments + [a])
  {
    var xs := assessments + [a];
    var r := RecordType(groups, a);
    var i := IndexOfName(groups, a.assessmentType);
    RecordTypeKeepsFirstIndex(groups, assessments, a);
    RecordTypeShape(groups, a);
    assert |groups| < |r| ==> FirstIndex(xs, r[|groups|].name) == |assessments| by {
      if |groups| < |r| {
        NewTypeHasNotOccurred(groups, assessments, a);
        FirstIndexSnoc(assessments, a, a.assessmentType);
      }
    }
    forall j, k | 0 <= j < k < |r| ensures FirstIndex(xs, r[j].name) < FirstIndex(xs, r[k].name) {
      assert FirstIndex(xs, r[j].name) == FirstIndex(assessments, groups[j].name) < |assessments|;
      if k < |groups| {
        assert FirstIndex(xs, r[k].name) == FirstIndex(assessments, groups[k].name);
        assert FirstIndex(assessments, groups[j].name) < FirstIndex(assessments, groups[k].name);
      } else {
        assert k == |groups|;
      }
    }
  }

  /** One step of the scan preserves the meaning of the grouping. */
  lemma RecordTypeKeepsGroups(groups: seq<TypeGroup>, assessments: seq<Assessment>, a: Assessment)
    requires Groups(groups, assessments)
    ensures Groups(RecordType(groups, a), assessments + [a])
  {
    RecordTypeDistinct(groups, a);
    RecordTypeCovers(groups, assessments, a);
    RecordTypeTallies(groups, assessments, a);
    RecordTypeOrder(groups, assessments, a);
  }

  /** The sum of the groups' counts. */
  function SumCounts(groups: seq<TypeGroup>): nat
  {
    if |groups| == 0 then 0 else groups[0].tally.count + SumCounts(groups[1..])
  }

  lemma {:induction false} SumCountsUpdate(groups: seq<TypeGroup>, i: nat, g: TypeGroup)
    requires i < |groups|
    ensures SumCounts(groups[i := g]) + groups[i].tally.count == SumCounts(groups) + g.tally.count
  {
    if i > 0 {
      assert groups[i := g][1..] == groups[1..][i - 1 := g];
      SumCountsUpdate(groups[1..], i - 1, g);
    }
  }

  lemma {:induction false} SumCountsAppend(groups: seq<TypeGroup>, g: TypeGroup)
    ensures SumCounts(groups + [g]) == SumCounts(groups) + g.tally.count
  {
    if |groups| > 0 {
      assert (groups + [g])[1..] == groups[1..] + [g];
      SumCountsAppend(groups[1..], g);
    }
  }

  /** Every assessment is counted in exactly one type group: the counts add
      up to the list length. */
  lemma {:induction false} TypeCountsAddUp(assessments: seq<Assessment>)
    ensures SumCounts(GroupByType(assessments)) == |assessments|
  {
    if |assessments| > 0 {
      var front := assessments[..|assessments| - 1];
      var a := assessments[|assessments| - 1];
      var before := GroupByType(front);
      TypeCountsAddUp(front);
      var i := IndexOfName(before, a.assessmentType);
      if i < |before| {
        SumCountsUpdate(before, i, before[i].(tally := before[i].tally.Add(a)));
      } else {
        SumCountsAppend(before, TypeGroup(a.assessmentType, EmptyTally.Add(a)));
      }
    }
  }

  lemma {:induction false} SumCountsConcat(xs: seq<TypeGroup>, ys: seq<TypeGroup>)
    ensures SumCounts(xs + ys) == SumCounts(xs) + SumCounts(ys)
  {
    if |xs| == 0 {
      assert xs + ys == ys;
    } else {
      assert (xs + ys)[1..] == xs[1..] + ys;
      SumCountsConcat(xs[1..], ys);
    }
  }

  /** Reordering groups does not change the sum of their counts. */
  lemma {:induction false} SumCountsPermutation(xs: seq<TypeGroup>, ys: seq<TypeGroup>)
    requires multiset(xs) == multiset(ys)
    ensures SumCounts(xs) == SumCounts(ys)
  {
    if |xs| == 0 {
      assert |ys| == |multiset(ys)| == 0;
    } else {
      var x := xs[0];
      assert x in multiset(ys);
      var i :| 0 <= i < |ys| && ys[i] == x;
      var rest := ys[..i] + ys[i + 1..];
      assert ys == ys[..i] + [x] + ys[i + 1..];
      assert xs == [x] + xs[1..];
      assert multiset(ys) == multiset(ys[..i]) + multiset{x} + multiset(ys[i + 1..]);
      assert multiset(xs) == multiset{x} + multiset(xs[1..]);
      assert multiset(rest) == multiset(ys[..i]) + multiset(ys[i + 1..]);
      assert multiset(rest) == multiset(ys) - multiset{x};
      assert multiset(xs[1..]) == multiset(xs) - multiset{x};
      SumCountsPermutation(xs[1..], rest);
      SumCountsConcat(ys[..i] + [x], ys[i + 1..]);
      SumCountsConcat(ys[..i], [x]);
      SumCountsConcat(ys[..i], ys[i + 1..]);
    }
  }

  // Key enumeration order of a plain JavaScript object

  predicate IsDigit(c: char)
  {
    '0' <= c <= '9'
  }

  /** The value of a string of decimal digits. */
  function DecimalValue(s: string): nat
    requires forall i :: 0 <= i < |s| ==> IsDigit(s[i])
  {
    if |s| == 0 then 0
    else
      assert IsDigit(s[|s| - 1]);
      DecimalValue(s[..|s| - 1]) * 10 + ((s[|s| - 1] as int) - ('0' as int))
  }

  /** A key that is an array index: the canonical decimal form of an integer
      from 0 to 2^32 - 2. Such keys are enumerated before all others. */
  predicate IsArrayIndex(s: string)
  {
    && |s| > 0
    && (forall i :: 0 <= i < |s| ==> IsDigit(s[i]))
    && (s[0] != '0' || |s| == 1)
    && DecimalValue(s) <= 4294967294
  }

  function IsIndexGroup(): TypeGroup -> bool
  {
    (g: TypeGroup) => IsArrayIndex(g.name)
  }

  /** The numeric value of an array-index key (other keys are never sorted). */
  function IndexValue(g: TypeGroup): int
  {
    if IsArrayIndex(g.name) then DecimalValue(g.name) else 0
  }

  /** Object.keys order: array-index keys in ascending numeric order, then
      every other key in the order it was created. */
  function KeyOrder(groups: seq<TypeGroup>): (ordered: seq<TypeGroup>)
    ensures multiset(ordered) == multiset(groups)
  {
    FilterSplit(groups, IsIndexGroup());
    SortBy(Filter(groups, IsIndexGroup()), IndexValue) + Filter(groups, Not(IsIndexGroup()))
  }

  /** Array-index keys come first, in ascending numeric order. */
  lemma KeyOrderIndexFirst(groups: seq<TypeGroup>)
    ensures forall i, j :: 0 <= i < j < |KeyOrder(groups)| && IsArrayIndex(KeyOrder(groups)[j].name) ==>
      IsArrayIndex(KeyOrder(groups)[i].name)
      && DecimalValue(KeyOrder(groups)[i].name) <= DecimalValue(KeyOrder(groups)[j].name)
  {
    var indexed := Filter(groups, IsIndexGroup());
    var named := Filter(groups, Not(IsIndexGroup()));
    var sorted := SortBy(indexed, IndexValue);
    var ordered := sorted + named;
    assert KeyOrder(groups) == ordered;
    FilterSatisfies(groups, IsIndexGroup());
    FilterSatisfies(groups, Not(IsIndexGroup()));
    SortByKeepsAll(indexed, IndexValue, IsIndexGroup());
    forall i, j | 0 <= i < j < |ordered| && IsArrayIndex(ordered[j].name)
      ensures IsArrayIndex(ordered[i].name) && DecimalValue(ordered[i].name) <= DecimalValue(ordered[j].name)
    {
      assert ordered[i] == sorted[i] && ordered[j] == sorted[j];
      assert IsIndexGroup()(sorted[i]) && IsIndexGroup()(sorted[j]);
      assert IndexValue(sorted[i]) <= IndexValue(sorted[j]);
    }
  }

  /** Every other key keeps its creation order. */
  lemma KeyOrderKeepsCreationOrder(groups: seq<TypeGroup>)
    ensures Filter(KeyOrder(groups), Not(IsIndexGroup())) == Filter(groups, Not(IsIndexGroup()))
  {
    var indexed := Filter(groups, IsIndexGroup());
    var named := Filter(groups, Not(IsIndexGroup()));
    var sorted := SortBy(indexed, IndexValue);
    FilterSatisfies(groups, IsIndexGroup());
    FilterSatisfies(groups, Not(IsIndexGroup()));
    SortByKeepsAll(indexed, IndexValue, IsIndexGroup());
    FilterAppend(sorted, named, Not(IsIndexGroup()));
    FilterAll(named, Not(IsIndexGroup()));
    FilterEmpty(sorted, Not(IsIndexGroup()));
  }

  /** Without array-index labels the key order is the creation order. */
  lemma KeyOrderWithoutIndexNames(groups: seq<TypeGroup>)
    requires forall i :: 0 <= i < |groups| ==> !IsArrayIndex(groups[i].name)
    ensures KeyOrder(groups) == groups
  {
    FilterAll(groups, Not(IsIndexGroup()));
    FilterEmpty(groups, IsIndexGroup());
  }

  /** One line of the assessment-type table (and one bar pair of the chart). */
  datatype TypeRow = TypeRow(name: string, count: nat, avgWR: real, avgComp: real)

  /** A row faithfully describes the assessments of its type. */
  predicate DescribesType(row: TypeRow, assessments: seq<Assessment>)
  {
    var sel := Filter(assessments, HasType(row.name));
    && row.count == |sel| > 0
    && row.avgWR == SumWR(sel) / |sel| as real
    && row.avgComp == SumComp(sel) / |sel| as real
  }

  function RowOf(g: TypeGroup): TypeRow
    requires g.tally.count > 0
  {
    TypeRow(g.name, g.tally.count, Mean(g.tally.totalWR, g.tally.count), Mean(g.tally.totalComp, g.tally.count))
  }

  /** Every group the scan produces holds at least one assessment. */
  lemma GroupsNonEmpty(groups: seq<TypeGroup>, assessments: seq<Assessment>)
    requires NamesOccur(groups, assessments) && TalliesMatch(groups, assessments)
    ensures forall g :: g in groups ==> g.tally.count > 0
  {
    forall g | g in groups ensures g.tally.count > 0 {
      var i :| 0 <= i < |groups| && groups[i] == g;
      assert Occurs(assessments, g.name);
      FilterEmpty(assessments, HasType(g.name));
    }
  }

  /** The table rows for groups in a given key order. */
  function RowsOf(ordered: seq<TypeGroup>): (rows: seq<TypeRow>)
    requires forall g :: g in ordered ==> g.tally.count > 0
    ensures |rows| == |ordered|
    ensures forall i :: 0 <= i < |rows| ==> rows[i] == RowOf(ordered[i])
  {
    if |ordered| == 0 then [] else [RowOf(ordered[0])] + RowsOf(ordered[1..])
  }

  /** Every group of the key order holds at least one assessment. */
  lemma OrderedGroupsNonEmpty(assessments: seq<Assessment>)
    ensures forall g :: g in KeyOrder(GroupByType(assessments)) ==> g.tally.count > 0
  {
    var groups := GroupByType(assessments);
    GroupsNonEmpty(groups, assessments);
    forall g | g in KeyOrder(groups) ensures g.tally.count > 0 {
      assert g in multiset(groups);
    }
  }

  /** The assessment-type table: exactly one row per distinct type, each
      describing the assessments of that type. */
  function TypeRows(assessments: seq<Assessment>): (rows: seq<TypeRow>)
    ensures forall i, j :: 0 <= i < j < |rows| ==> rows[i].name != rows[j].name
    ensures forall i :: 0 <= i < |rows| ==> DescribesType(rows[i], assessments)
    ensures forall k :: 0 <= k < |assessments| ==>
      exists i :: 0 <= i < |rows| && rows[i].name == assessments[k].assessmentType
  {
    var groups := GroupByType(assessments);
    var ordered := KeyOrder(groups);
    OrderedGroupsNonEmpty(assessments);
    KeyOrderKeepsGroups(groups, assessments);
    RowsDescribe(ordered, assessments);
    RowsOf(ordered)
  }

  /** The rows come in Object.keys order: array-index labels first, in
      ascending numeric order. */
  lemma TypeRowsIndexFirst(assessments: seq<Assessment>)
    ensures var rows := TypeRows(assessments);
      forall i, j :: 0 <= i < j < |rows| && IsArrayIndex(rows[j].name) ==>
        IsArrayIndex(rows[i].name) && DecimalValue(rows[i].name) <= DecimalValue(rows[j].name)
  {
    var ordered := KeyOrder(GroupByType(assessments));
    OrderedGroupsNonEmpty(assessments);
    var rows := RowsOf(ordered);
    assert TypeRows(assessments) == rows;
    KeyOrderIndexFirst(GroupByType(assessments));
    forall i, j | 0 <= i < j < |rows| && IsArrayIndex(rows[j].name)
      ensures IsArrayIndex(rows[i].name) && DecimalValue(rows[i].name) <= DecimalValue(rows[j].name)
    {
      assert rows[i].name == ordered[i].name && rows[j].name == ordered[j].name;
    }
  }

  /** When no label is an array index, the rows come in the order their
      types first appear. */
  lemma TypeRowsFirstSeen(assessments: seq<Assessment>)
    requires forall k :: 0 <= k < |assessments| ==> !IsArrayIndex(assessments[k].assessmentType)
    ensures var rows := TypeRows(assessments);
      forall i, j :: 0 <= i < j < |rows| ==>
        Occurs(assessments, rows[i].name) && Occurs(assessments, rows[j].name) &&
        FirstIndex(assessments, rows[i].name) < FirstIndex(assessments, rows[j].name)
  {
    var groups := GroupByType(assessments);
    GroupsNonEmpty(groups, assessments);
    GroupsHaveNoIndexNames(groups, assessments);
    KeyOrderWithoutIndexNames(groups);
    assert TypeRows(assessments) == RowsOf(groups);
    RowsKeepFirstSeen(groups, assessments);
  }

  /** In mixed input, the rows whose label is not an array index still
      follow the order in which their types first appear. */
  lemma TypeRowsNamedFirstSeen(assessments: seq<Assessment>)
    ensures var rows := TypeRows(assessments);
      forall i, j :: 0 <= i < j < |rows| && !IsArrayIndex(rows[i].name) && !IsArrayIndex(rows[j].name) ==>
        Occurs(assessments, rows[i].name) && Occurs(assessments, rows[j].name) &&
        FirstIndex(assessments, rows[i].name) < FirstIndex(assessments, rows[j].name)
  {
    var groups := GroupByType(assessments);
    var ordered := KeyOrder(groups);
    OrderedGroupsNonEmpty(assessments);
    var rows := RowsOf(ordered);
    assert TypeRows(assessments) == rows;
    KeyOrderNamedFirstSeen(groups, assessments);
    forall i, j | 0 <= i < j < |rows| && !IsArrayIndex(rows[i].name) && !IsArrayIndex(rows[j].name)
      ensures Occurs(assessments, rows[i].name) && Occurs(assessments, rows[j].name)
           && FirstIndex(assessments, rows[i].name) < FirstIndex(assessments, rows[j].name)
    {
      assert rows[i].name == ordered[i].name && rows[j].name == ordered[j].name;
    }
  }

  /** In the key order, the keys that are not array indices keep the order
      in which their types first appear. */
  lemma KeyOrderNamedFirstSeen(groups: seq<TypeGroup>, assessments: seq<Assessment>)
    requires NamesOccur(groups, assessments) && FirstSeenOrder(groups, assessments)
    ensures var ordered := KeyOrder(groups);
      forall i, j :: 0 <= i < j < |ordered| && !IsArrayIndex(ordered[i].name) && !IsArrayIndex(ordered[j].name) ==>
        Occurs(assessments, ordered[i].name) && Occurs(assessments, ordered[j].name) &&
        FirstIndex(assessments, ordered[i].name) < FirstIndex(assessments, ordered[j].name)
  {
    var ordered := KeyOrder(groups);
    forall i, j | 0 <= i < j < |ordered| && !IsArrayIndex(ordered[i].name) && !IsArrayIndex(ordered[j].name)
      ensures Occurs(assessments, ordered[i].name) && Occurs(assessments, ordered[j].name)
           && FirstIndex(assessments, ordered[i].name) < FirstIndex(assessments, ordered[j].name)
    {
      KeyOrderNamedPair(groups, assessments, i, j);
    }
  }

  lemma KeyOrderNamedPair(groups: seq<TypeGroup>, assessments: seq<Assessment>, i: nat, j: nat)
    requires NamesOccur(groups, assessments) && FirstSeenOrder(groups, assessments)
    requires i < j < |KeyOrder(groups)|
    requires !IsArrayIndex(KeyOrder(groups)[i].name) && !IsArrayIndex(KeyOrder(groups)[j].name)
    ensures Occurs(assessments, KeyOrder(groups)[i].name) && Occurs(assessments, KeyOrder(groups)[j].name)
    ensures FirstIndex(assessments, KeyOrder(groups)[i].name) < FirstIndex(assessments, KeyOrder(groups)[j].name)
  {
    KeyOrderNamedPositions(groups, i, j);
    var a, b :| 0 <= a < b < |groups| && groups[a] == KeyOrder(groups)[i] && groups[b] == KeyOrder(groups)[j];
    assert FirstIndex(assessments, groups[a].name) < FirstIndex(assessments, groups[b].name);
  }

  /** Two keys of the key order that are not array indices come from
      groups in the same creation order. */
  lemma KeyOrderNamedPositions(groups: seq<TypeGroup>, i: nat, j: nat)
    requires i < j < |KeyOrder(groups)|
    requires !IsArrayIndex(KeyOrder(groups)[i].name) && !IsArrayIndex(KeyOrder(groups)[j].name)
    ensures exists a, b :: 0 <= a < b < |groups| && groups[a] == KeyOrder(groups)[i] && groups[b] == KeyOrder(groups)[j]
  {
    var n := |Filter(groups, IsIndexGroup())|;
    KeyOrderNamedPart(groups, i);
    KeyOrderNamedPart(groups, j);
    FilterKeepsOrder(groups, Not(IsIndexGroup()), i - n, j - n);
  }

  /** A key of the key order that is not an array index sits in the
      non-index part, after all array-index keys. */
  lemma KeyOrderNamedPart(groups: seq<TypeGroup>, i: nat)
    requires i < |KeyOrder(groups)| && !IsArrayIndex(KeyOrder(groups)[i].name)
    ensures var n := |Filter(groups, IsIndexGroup())|;
      && |KeyOrder(groups)| == n + |Filter(groups, Not(IsIndexGroup()))|
      && n <= i && KeyOrder(groups)[i] == Filter(groups, Not(IsIndexGroup()))[i - n]
  {
    var indexed := Filter(groups, IsIndexGroup());
    var sorted := SortBy(indexed, IndexValue);
    FilterSatisfies(groups, IsIndexGroup());
    SortByKeepsAll(indexed, IndexValue, IsIndexGroup());
  }

  /** The sum of the table's count column. */
  function SumRowCounts(rows: seq<TypeRow>): nat
  {
    if |rows| == 0 then 0 else rows[0].count + SumRowCounts(rows[1..])
  }

  lemma {:induction false} RowsCountSum(ordered: seq<TypeGroup>)
    requires forall g :: g in ordered ==> g.tally.count > 0
    ensures SumRowCounts(RowsOf(ordered)) == SumCounts(ordered)
  {
    if |ordered| > 0 {
      assert RowsOf(ordered)[1..] == RowsOf(ordered[1..]);
      RowsCountSum(ordered[1..]);
    }
  }

  /** The table's count column adds up to the list length: every
      assessment is counted in exactly one row. */
  lemma TypeRowCountsAddUp(assessments: seq<Assessment>)
    ensures SumRowCounts(TypeRows(assessments)) == |assessments|
  {
    var groups := GroupByType(assessments);
    OrderedGroupsNonEmpty(assessments);
    assert TypeRows(assessments) == RowsOf(KeyOrder(groups));
    RowsCountSum(KeyOrder(groups));
    SumCountsPermutation(KeyOrder(groups), groups);
    TypeCountsAddUp(assessments);
  }

  /** Rows built from groups that tally their types describe those types
      and cover what the groups cover. */
  lemma RowsDescribe(ordered: seq<TypeGroup>, assessments: seq<Assessment>)
    requires forall g :: g in ordered ==> g.tally.count > 0
    requires TalliesMatch(ordered, assessments) && TypesCovered(ordered, assessments)
    ensures forall i :: 0 <= i < |RowsOf(ordered)| ==> DescribesType(RowsOf(ordered)[i], assessments)
    ensures forall k :: 0 <= k < |assessments| ==>
      exists i :: 0 <= i < |RowsOf(ordered)| && RowsOf(ordered)[i].name == assessments[k].assessmentType
  {
    var rows := RowsOf(ordered);
    forall i | 0 <= i < |rows| ensures DescribesType(rows[i], assessments) {
      var g := ordered[i];
      assert rows[i] == RowOf(g);
      assert g.tally == Totals(Filter(assessments, HasType(g.name)));
    }
    forall k | 0 <= k < |assessments|
      ensures exists i :: 0 <= i < |rows| && rows[i].name == assessments[k].assessmentType
    {
      var i :| 0 <= i < |ordered| && ordered[i].name == assessments[k].assessmentType;
      assert rows[i].name == ordered[i].name;
    }
  }

  /** Groups are named after types that occur, so when no type is an
      array index, neither is any group name. */
  lemma GroupsHaveNoIndexNames(groups: seq<TypeGroup>, assessments: seq<Assessment>)
    requires NamesOccur(groups, assessments)
    requires forall k :: 0 <= k < |assessments| ==> !IsArrayIndex(assessments[k].assessmentType)
    ensures forall i :: 0 <= i < |groups| ==> !IsArrayIndex(groups[i].name)
  {
    forall i | 0 <= i < |groups| ensures !IsArrayIndex(groups[i].name) {
      assert Occurs(assessments, groups[i].name);
      var k :| 0 <= k < |assessments| && assessments[k].assessmentType == groups[i].name;
    }
  }

  /** Rows built in creation order follow the first-seen order. */
  lemma RowsKeepFirstSeen(groups: seq<TypeGroup>, assessments: seq<Assessment>)
    requires NamesOccur(groups, assessments) && FirstSeenOrder(groups, assessments)
    requires forall g :: g in groups ==> g.tally.count > 0
    ensures forall i, j :: 0 <= i < j < |RowsOf(groups)| ==>
      Occurs(assessments, RowsOf(groups)[i].name) && Occurs(assessments, RowsOf(groups)[j].name) &&
      FirstIndex(assessments, RowsOf(groups)[i].name) < FirstIndex(assessments, RowsOf(groups)[j].name)
  {
    var rows := RowsOf(groups);
    forall i, j | 0 <= i < j < |rows|
      ensures Occurs(assessments, rows[i].name) && Occurs(assessments, rows[j].name)
           && FirstIndex(assessments, rows[i].name) < FirstIndex(assessments, rows[j].name)
    {
      assert rows[i].name == groups[i].name && rows[j].name == groups[j].name;
    }
  }

  /** Reordering the keys keeps every group intact, so the reordered groups
      are still distinct, cover every type and describe their types. */
  lemma KeyOrderKeepsGroups(groups: seq<TypeGroup>, assessments: seq<Assessment>)
    requires Groups(groups, assessments)
    ensures DistinctNames(KeyOrder(groups))
    ensures TalliesMatch(KeyOrder(groups), assessments)
    ensures TypesCovered(KeyOrder(groups), assessments)
  {
    var ordered := KeyOrder(groups);
    PermutationDistinct(groups, ordered);
    PermutationTallies(groups, ordered, assessments);
    PermutationCovers(groups, ordered, assessments);
  }

  /** A reordering of groups with distinct names has distinct names. */
  lemma PermutationDistinct(groups: seq<TypeGroup>, ordered: seq<TypeGroup>)
    requires multiset(ordered) == multiset(groups) && DistinctNames(groups)
    ensures DistinctNames(ordered)
  {
    NoRepeats(groups);
    forall i, j | 0 <= i < j < |ordered| ensures ordered[i].name != ordered[j].name {
      assert ordered[i] in multiset(groups);
      assert ordered[j] in multiset(groups);
      var i' :| 0 <= i' < |groups| && groups[i'] == ordered[i];
      var j' :| 0 <= j' < |groups| && groups[j'] == ordered[j];
      RepeatCounts(ordered, i, j);
      assert multiset(ordered)[ordered[i]] <= 1;
    }
  }

  /** A reordering of groups that tally their types still does. */
  lemma PermutationTallies(groups: seq<TypeGroup>, ordered: seq<TypeGroup>, assessments: seq<Assessment>)
    requires multiset(ordered) == multiset(groups) && TalliesMatch(groups, assessments)
    ensures TalliesMatch(ordered, assessments)
  {
    forall i | 0 <= i < |ordered|
      ensures ordered[i].tally == Totals(Filter(assessments, HasType(ordered[i].name)))
    {
      assert ordered[i] in multiset(groups);
    }
  }

  /** A reordering of groups that cover every type still does. */
  lemma PermutationCovers(groups: seq<TypeGroup>, ordered: seq<TypeGroup>, assessments: seq<Assessment>)
    requires multiset(ordered) == multiset(groups) && TypesCovered(groups, assessments)
    ensures TypesCovered(ordered, assessments)
  {
    forall k | 0 <= k < |assessments|
      ensures exists i :: 0 <= i < |ordered| && ordered[i].name == assessments[k].assessmentType
    {
      var j :| 0 <= j < |groups| && groups[j].name == assessments[k].assessmentType;
      assert groups[j] in multiset(ordered);
      var m :| 0 <= m < |ordered| && ordered[m] == groups[j];
      assert ordered[m].name == assessments[k].assessmentType;
    }
    assert forall k :: 0 <= k < |assessments| ==>
      exists i :: 0 <= i < |ordered| && ordered[i].name == assessments[k].assessmentType;
  }

  /** A sequence of groups with distinct names holds each group at most once. */
  lemma {:induction false} NoRepeats(groups: seq<TypeGroup>)
    requires DistinctNames(groups)
    ensures forall g :: multiset(groups)[g] <= 1
  {
    if |groups| > 0 {
      var front := groups[..|groups| - 1];
      var last := groups[|groups| - 1];
      assert groups == front + [last];
      NoRepeats(front);
      assert last !in front by {
        forall m | 0 <= m < |front| ensures front[m] != last {
          assert front[m].name != last.name;
        }
      }
    }
  }

  /** An element found at two positions occurs at least twice. */
  lemma RepeatCounts(s: seq<TypeGroup>, i: nat, j: nat)
    requires i < j < |s|
    ensures s[i] == s[j] ==> multiset(s)[s[i]] >= 2
  {
    assert s == s[..i] + [s[i]] + s[i + 1..j] + [s[j]] + s[j + 1..];
  }

  // The scan as written: `!typeData[type]` also sees inherited properties

  /** The names a plain object inherits from Object.prototype. Looking one
      of them up on an empty object yields a truthy value. */
  const InheritedNames: set<string> := {
    "constructor", "__defineGetter__", "__defineSetter__", "hasOwnProperty",
    "__lookupGetter__", "__lookupSetter__", "isPrototypeOf",
    "propertyIsEnumerable", "toString", "valueOf", "__proto__", "toLocaleString" }

  /** Selects the assessments whose type is not an inherited name. */
  function OwnKeyType(): Assessment -> bool
  {
    (a: Assessment) => a.assessmentType !in InheritedNames
  }

  /** One step of the scan as written: for an inherited name the guard finds
      the inherited value, no own key is created, and the updates land on
      that inherited value, which Object.keys never lists. */
  function RecordTypeAsWritten(groups: seq<TypeGroup>, a: Assessment): seq<TypeGroup>
  {
    if a.assessmentType in InheritedNames then groups else RecordType(groups, a)
  }

  /** The scan as written. Its groups are those of the assessments whose
      type is not an inherited name, and no group is named after one. */
  function GroupByTypeAsWritten(assessments: seq<Assessment>): (groups: seq<TypeGroup>)
    ensures Groups(groups, Filter(assessments, OwnKeyType()))
    ensures forall i :: 0 <= i < |groups| ==> groups[i].name !in InheritedNames
  {
    if |assessments| == 0 then []
    else
      var front := assessments[..|assessments| - 1];
      var a := assessments[|assessments| - 1];
      var before := GroupByTypeAsWritten(front);
      RecordTypeAsWrittenKeepsGroups(before, Filter(front, OwnKeyType()), a);
      var groups := RecordTypeAsWritten(before, a);
      OwnGroupsNotInherited(groups, Filter(assessments, OwnKeyType()));
      groups
  }

  /** One as-written step keeps the grouping invariant over the assessments
      it does not skip. */
  lemma RecordTypeAsWrittenKeepsGroups(groups: seq<TypeGroup>, own: seq<Assessment>, a: Assessment)
    requires Groups(groups, own)
    ensures Groups(RecordTypeAsWritten(groups, a), own + (if OwnKeyType()(a) then [a] else []))
  {
    if a.assessmentType in InheritedNames {
      assert own + [] == own;
    } else {
      RecordTypeKeepsGroups(groups, own, a);
    }
  }

  /** Groups named after types of own-key assessments have own-key names. */
  lemma OwnGroupsNotInherited(groups: seq<TypeGroup>, own: seq<Assessment>)
    requires NamesOccur(groups, own)
    requires forall k :: 0 <= k < |own| ==> OwnKeyType()(own[k])
    ensures forall i :: 0 <= i < |groups| ==> groups[i].name !in InheritedNames
  {
    forall i | 0 <= i < |groups| ensures groups[i].name !in InheritedNames {
      assert Occurs(own, groups[i].name);
      var k :| 0 <= k < |own| && own[k].assessmentType == groups[i].name;
      assert OwnKeyType()(own[k]);
    }
  }

  /** The table as written: the rows of the own keys only. Row names are
      distinct and never inherited names; each row describes all the
      assessments of its type; every type that is not an inherited name has
      a row. */
  function TypeRowsAsWritten(assessments: seq<Assessment>): (rows: seq<TypeRow>)
    ensures forall i, j :: 0 <= i < j < |rows| ==> rows[i].name != rows[j].name
    ensures forall i :: 0 <= i < |rows| ==>
      rows[i].name !in InheritedNames && DescribesType(rows[i], assessments)
    ensures forall k :: 0 <= k < |assessments| && assessments[k].assessmentType !in InheritedNames ==>
      exists i :: 0 <= i < |rows| && rows[i].name == assessments[k].assessmentType
  {
    var groups := GroupByTypeAsWritten(assessments);
    GroupByTypeDropsInherited(assessments);
    OrderedGroupsNonEmpty(Filter(assessments, OwnKeyType()));
    var rows := RowsOf(KeyOrder(groups));
    assert rows == TypeRows(Filter(assessments, OwnKeyType()));
    OwnRowsDescribeAll(assessments);
    rows
  }

  /** The intended rows of the own-key assessments describe the whole list:
      no other assessment shares their types. */
  lemma OwnRowsDescribeAll(assessments: seq<Assessment>)
    ensures var rows := TypeRows(Filter(assessments, OwnKeyType()));
      && (forall i :: 0 <= i < |rows| ==>
            rows[i].name !in InheritedNames && DescribesType(rows[i], assessments))
      && (forall k :: 0 <= k < |assessments| && assessments[k].assessmentType !in InheritedNames ==>
            exists i :: 0 <= i < |rows| && rows[i].name == assessments[k].assessmentType)
  {
    var own := Filter(assessments, OwnKeyType());
    var rows := TypeRows(own);
    forall i | 0 <= i < |rows| ensures rows[i].name !in InheritedNames && DescribesType(rows[i], assessments) {
      OwnRowDescribesAll(assessments, rows[i]);
    }
    forall k | 0 <= k < |assessments| && assessments[k].assessmentType !in InheritedNames
      ensures exists i :: 0 <= i < |rows| && rows[i].name == assessments[k].assessmentType
    {
      OwnTypeHasRow(assessments, k);
    }
  }

  /** A row describing some own-key assessments has an own-key name, and
      then it describes the whole list too. */
  lemma OwnRowDescribesAll(assessments: seq<Assessment>, row: TypeRow)
    requires DescribesType(row, Filter(assessments, OwnKeyType()))
    ensures row.name !in InheritedNames && DescribesType(row, assessments)
  {
    var own := Filter(assessments, OwnKeyType());
    FilterEmpty(own, HasType(row.name));
    var k :| 0 <= k < |own| && HasType(row.name)(own[k]);
    FilterSatisfies(assessments, OwnKeyType());
    assert OwnKeyType()(own[k]);
    FilterNested(assessments, OwnKeyType(), HasType(row.name));
  }

  /** An assessment whose type is not an inherited name has an intended row
      among the own-key rows. */
  lemma OwnTypeHasRow(assessments: seq<Assessment>, k: nat)
    requires k < |assessments| && assessments[k].assessmentType !in InheritedNames
    ensures var rows := TypeRows(Filter(assessments, OwnKeyType()));
      exists i :: 0 <= i < |rows| && rows[i].name == assessments[k].assessmentType
  {
    var own := Filter(assessments, OwnKeyType());
    FilterPosition(assessments, OwnKeyType(), k);
    var m :| 0 <= m < |own| && own[m] == assessments[k];
    var rows := TypeRows(own);
    var i :| 0 <= i < |rows| && rows[i].name == own[m].assessmentType;
    assert rows[i].name == assessments[k].assessmentType;
  }

  /** The scan as written is the intended scan over the assessments whose
      type is not an inherited name: those assessments vanish from the
      table. */
  lemma {:induction false} GroupByTypeDropsInherited(assessments: seq<Assessment>)
    ensures GroupByTypeAsWritten(assessments) == GroupByType(Filter(assessments, OwnKeyType()))
  {
    if |assessments| > 0 {
      var front := assessments[..|assessments| - 1];
      var a := assessments[|assessments| - 1];
      var kept := Filter(front, OwnKeyType());
      GroupByTypeDropsInherited(front);
      if a.assessmentType !in InheritedNames {
        assert Filter(assessments, OwnKeyType()) == kept + [a];
        assert (kept + [a])[..|kept + [a]| - 1] == kept;
      } else {
        assert Filter(assessments, OwnKeyType()) == kept + [];
        assert kept + [] == kept;
      }
    }
  }

  /** The rows as written are exactly the intended rows of the assessments
      whose type is not an inherited name. */
  lemma TypeRowsAsWrittenAreOwnRows(assessments: seq<Assessment>)
    ensures TypeRowsAsWritten(assessments) == TypeRows(Filter(assessments, OwnKeyType()))
  {
    GroupByTypeDropsInherited(assessments);
  }

  /** A lone assessment whose type is an inherited name: the table as
      written is empty, while the intended table has a row for its type. */
  lemma InheritedTypeLosesItsRow(a: Assessment)
    requires a.assessmentType in InheritedNames
    ensures TypeRowsAsWritten([a]) == []
    ensures exists i :: 0 <= i < |TypeRows([a])| && TypeRows([a])[i].name == a.assessmentType
  {
    if |TypeRowsAsWritten([a])| > 0 {
      assert false;
    }
    var rows := TypeRows([a]);
    assert exists i :: 0 <= i < |rows| && rows[i].name == [a][0].assessmentType;
  }

  /** The concrete case: one "constructor" assessment. */
  lemma ConstructorTypeLosesItsRow()
    ensures TypeRowsAsWritten([Assessment(1, 0, "constructor", 80.0, 70.0, "Independent")]) == []
    ensures var rows := TypeRows([Assessment(1, 0, "constructor", 80.0, 70.0, "Independent")]);
      exists i :: 0 <= i < |rows| && rows[i].name == "constructor"
  {
    InheritedTypeLosesItsRow(Assessment(1, 0, "constructor", 80.0, 70.0, "Independent"));
  }
}
