# Reading assessment dashboard: aggregation model

This project models and proves the aggregation logic of the reading
assessment dashboard (`reading.js`). It takes a list of reading assessments
(student id, date, assessment type, word-recognition and comprehension
percentages, reading-level label) and a list of students (id, name, optional
gender), and derives five things:

- **Overall summary** (`OverallSummary`): the number of assessments and both
  score averages. An empty list has no summary.
- **Reading-level table** (`ReadingLevels`): one row per level, for each of
  Independent, Instructional and Frustration that occurs, in that fixed order.
  Each row holds the level's count, its share of all assessments and its two
  averages. Unknown labels count towards no level but still count in the
  total that shares are taken of.
- **Assessment-type table and chart** (`AssessmentTypes`): one row per
  distinct type label, listed in the key order of a plain JavaScript object.
  Labels that are array indices come first in ascending numeric order, then
  the others in the order they were first seen. The chart (`reading.js`
  lines 146-162) repeats the table's scan. Its labels and two data arrays are
  the name and average columns of the same rows, so both are modelled by
  `GroupByType` and `TypeRows`.
- **Student progress table** (`Progress`): for each student in list order
  who has assessments, a row holding:
  - the first and the last assessment date;
  - the change in both scores between the first and the last assessment;
  - the last assessment's reading level.

  The first and last assessment come from a stable sort by date
  (`Sorting`). When several of a student's assessments share the earliest
  date, the row's first assessment is the earliest of them in input order;
  when several share the latest date, its last assessment is the latest of
  them in input order.
- **Gender chart** (`GenderChart`): each assessment counts towards the
  gender of the first student with its id. Unknown students and students
  without a gender count towards neither bucket. A bucket with no assessment
  shows 0.

Every grouping is a left-to-right fold, as the source's `forEach` and
`reduce` are. Each fold is proved equal to a reference definition:
`Records.Totals` applied to the `Sequences.Filter` selection of that group's
assessments. Averages are exact rationals (`real`).

A level label that names an `Object.prototype` property, such as
"constructor", passes the guard at line 41. The increments then land on the
inherited object. None of the three level rows changes, so treating such a
label as unrecognised gives the same table.

## Model

| member | source | states |
|---|---|---|
| Records.Accumulate | reading.js:6-7 | The running totals, accumulated from the first assessment to the last, equal the list's length and the sums of its two scores. |
| OverallSummary.Summarize | reading.js:2-14 | An empty list yields no summary, and a non-empty list always yields one. The summary's count is the list length, and each average is that score's sum divided by the length. |
| OverallSummary.SummaryInPercentRange | reading.js:6-10 | When every score lies between 0 and 100, both averages do too. |
| ReadingLevels.ParseLevel | reading.js:27-41 | A label is recognised exactly when it is one of the three level names. A recognised label maps back to the same text. |
| ReadingLevels.GroupByLevel | reading.js:27-46 | After the scan, each level's tally holds the count and score sums of exactly the assessments labelled with that level. |
| ReadingLevels.LevelPartition | reading.js:40-46 | Each assessment counts under at most one level. The three level counts plus the number of unrecognised labels equal the list length. |
| ReadingLevels.LevelCountsCoverKnownLabels | reading.js:40-46 | The level counts never exceed the list length. They equal it exactly when every label is a known level. |
| ReadingLevels.LevelRows | reading.js:48-66 | There are at most three rows, in Independent, Instructional, Frustration order. A level has a row exactly when some assessment carries it. Each row's count is positive and equals the size of its level's group, its share is that count over the whole list times 100, and its averages are over the level's own assessments. |
| ReadingLevels.PercentagesSumToHundred | reading.js:48-54 | When every label is known, the share column adds up to exactly 100 before display rounding. An empty list gives an empty table. |
| ReadingLevels.ThreeAssessmentExample | reading.js:27-66 | Two Independent assessments (90/88 and 80/82) and one Frustration assessment (40/35) give two rows. Independent has count 2, share 200/3 and averages 85/85. Frustration has count 1, share 100/3 and averages 40/35. There is no Instructional row. |
| AssessmentTypes.FirstIndex | reading.js:77-84 | Gives the position of the first assessment of a given type. No earlier assessment has that type. |
| AssessmentTypes.GroupByType | reading.js:77-89 | One group per distinct type. Every assessment's type has a group, and every group is named after a type that occurs. Groups appear in the order their types were first seen. Each group tallies exactly the assessments of its type. |
| AssessmentTypes.RecordTypeKeepsGroups | reading.js:78-88 | One scan step keeps all of that grouping invariant, over the list extended by one assessment. |
| AssessmentTypes.TypeCountsAddUp | reading.js:77-89 | The counts of the scan's groups, in creation order, add up to the list length. |
| AssessmentTypes.KeyOrder | reading.js:92 | Object key order lists every group exactly once: it is a permutation of the creation order. |
| AssessmentTypes.KeyOrderIndexFirst | reading.js:92 | Array-index keys come before all other keys, in ascending numeric order. |
| AssessmentTypes.KeyOrderKeepsCreationOrder | reading.js:92 | Keys that are not array indices keep their creation order. |
| AssessmentTypes.KeyOrderWithoutIndexNames | reading.js:92 | Without array-index keys, the key order is exactly the creation order. |
| AssessmentTypes.TypeRows | reading.js:77-105 | Row names are distinct, and every assessment's type has a row. Each row's count is positive and equals the number of assessments of its type, and its averages are over exactly those assessments. |
| AssessmentTypes.TypeRowsIndexFirst | reading.js:92-105 | Rows whose label is an array index come first, in ascending numeric order. |
| AssessmentTypes.TypeRowsFirstSeen | reading.js:92-105 | When no label is an array index, rows appear in the order their types first occur in the list. |
| AssessmentTypes.TypeRowsNamedFirstSeen | reading.js:92-105 | Also in mixed input, the rows whose label is not an array index appear in the order their types first occur in the list. |
| AssessmentTypes.TypeRowCountsAddUp | reading.js:77-105 | The table's count column adds up to the list length: the key reordering loses and duplicates no assessment. |
| AssessmentTypes.GroupByTypeAsWritten | reading.js:77-89 | The scan as written keeps the full grouping invariant, but only over the assessments whose type is not an inherited property name. No group is named after such a name. |
| AssessmentTypes.TypeRowsAsWritten | reading.js:77-105 | The table as written has distinct row names, none an inherited property name. Each row describes all the assessments of its type, and every type that is not an inherited name has a row. |
| AssessmentTypes.GroupByTypeDropsInherited | reading.js:77-89 | The scan as written equals the intended scan over only those assessments whose type is not an inherited property name. |
| AssessmentTypes.TypeRowsAsWrittenAreOwnRows | reading.js:77-105 | The table as written is the intended table of the assessments whose type is not an inherited property name. |
| AssessmentTypes.InheritedTypeLosesItsRow | reading.js:78-92 | For one assessment whose type is an inherited property name, the table as written is empty, while the intended table has a row for that type. |
| AssessmentTypes.ConstructorTypeLosesItsRow | reading.js:78-92 | The same discrepancy for one concrete assessment of type "constructor". |
| Sequences.FilterMembers | reading.js:116 | An element is selected exactly when it occurs in the input and satisfies the predicate. |
| Sorting.SortBy | reading.js:117 | The sorted list is a permutation of the input, ordered by date. |
| Sorting.SortByStable | reading.js:117 | For every date, the assessments on that date appear in their input order. |
| Sorting.SortByFirst | reading.js:117-120 | The first sorted element is the earliest-in-input element with the smallest date. |
| Sorting.SortByLast | reading.js:117-121 | The last sorted element is the latest-in-input element with the largest date. |
| Sorting.EarliestOfIsFirstMin | reading.js:117-120 | That earliest element has the smallest date, and every element before it in the input has a later date. |
| Sorting.LatestOfIsLastMax | reading.js:117-121 | That latest element has the largest date, and every element after it in the input has an earlier date. |
| Progress.ProgressOf | reading.js:115-134 | There is no row exactly when the student has no assessment. Otherwise the row has the student's name, the earliest and the latest of their dates, and the last-minus-first change in both scores between the earliest and the latest of their assessments. Its reading level is the latest assessment's. |
| Progress.ProgressEndpoints | reading.js:115-121 | Both compared assessments belong to the student, and every assessment of theirs falls between the two dates. When dates tie, the first compared assessment is the earliest of the tied ones in input order, and the last compared assessment the latest. |
| Progress.SingleAssessmentNoProgress | reading.js:115-124 | A student with exactly one assessment, anywhere in a list that may hold other students' assessments, gets that assessment's date as both first and last date, zero change in both scores, and its reading level. |
| Progress.TwoAssessmentExample | reading.js:115-133 | Assessments from June (85/80) and January (70/65), listed June first, give changes of 15 and 15 and June's reading level. |
| Progress.StudentProgress | reading.js:114-137 | The rows follow the student list in order. A student gets a row exactly when they have an assessment, and that row is the student's `ProgressOf`. |
| GenderChart.FindStudent | reading.js:196 | Returns nothing exactly when no student has the id. Otherwise it returns the first student in the list with that id. |
| GenderChart.GroupByGender | reading.js:190-202 | Each gender's bucket holds the count and score sums of exactly the assessments attributed to that gender. |
| GenderChart.GenderPartition | reading.js:195-202 | The male count, the female count and the number of unattributed assessments add up to the list length. |
| GenderChart.UnattributedCountsNowhere | reading.js:196-197 | An assessment whose student is missing, or whose first matching student has no gender, is in neither bucket. |
| GenderChart.GenderBars | reading.js:204-212 | There are two bars, male then female. A bar is 0 when no assessment counts towards its gender. Otherwise it holds the averages of the assessments that do. |
| GenderChart.GenderBarsInPercentRange | reading.js:204-212 | When every score lies between 0 and 100, every bar lies between 0 and 100. |

## Left out

- DOM lookups, table-row markup and Chart.js configuration are left out. They are presentation only.
- `toFixed(1)` is left out. Averages, shares and deltas are exact rationals here; the one-decimal strings of the display are not modelled.
- IEEE floating-point rounding of the running `+=` sums is not modelled.
- The improvement rate (reading.js:18) is a fixed-baseline placeholder shown on the page, not an aggregation, so it is not modelled.
- `formatDate` is not modelled.
- `new Date(...)` parsing is not modelled: a date is any integer encoding that preserves date order (a day ordinal, or a yyyymmdd number as in `Progress.TwoAssessmentExample`). An unparseable date would make the comparator return NaN, and that case is not modelled.
- Student ids are integers compared for equality. A mix of string and numeric ids, which `===` would keep apart, is not modelled.
- Genders other than male and female are not modelled. With most other values, `genderData[student.gender]` (reading.js:198) is undefined and the scan throws. A gender that names one of the twelve `Object.prototype` properties (such as "constructor", "toString" or "__proto__") instead finds an inherited truthy value: nothing throws, `count++` writes NaN onto that inherited value, and the assessment silently counts towards neither bar. This is the same mechanism as the type-table finding below. The model's gender type admits only the two values or none, so valid gender data is a precondition carried by the types.
- The as-written type scan has a side effect that is not modelled. For an inherited name, its updates land on inherited objects; `__proto__`, for example, writes a NaN `count` onto `Object.prototype`. Only the rows that appear are modelled.
- AssessmentTypes.TypeRowsIndexFirst: states the order of array-index labels as non-decreasing (`<=`) rather than strictly increasing. Strictness needs distinct canonical decimal strings to have distinct values, and that is not proved here.
- AssessmentTypes.KeyOrderIndexFirst: the same non-strict ordering, for the same reason.
- Reading-level labels that name inherited properties get no separate modelled path. Their increments change none of the three rows, so the model treats them as unrecognised labels.

## Findings

| source | as written | input that shows it | evidently intended | confidence | as-written member | corrected member |
|---|---|---|---|---|---|---|
| reading.js:78-92 | `!typeData[assessment.type]` also finds inherited properties of the empty object, so a type named after one (for example "constructor" or "toString") creates no own key, and `Object.keys` never lists it | one assessment of type "constructor" | every distinct type gets its own group and row | high, not executed | AssessmentTypes.InheritedTypeLosesItsRow | AssessmentTypes.TypeRows |
